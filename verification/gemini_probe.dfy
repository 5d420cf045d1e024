/**
 * The connectivity probe for the Gemini API: how it pulls the reply text
 * out of a response, searching the response's dictionary form depth first
 * when the response has no text of its own, and how it classifies the
 * message of a failure into a hint.
 */
module GeminiProbe {
  import opened Common
  import opened Text

  /**
   * The dictionary form of a response: strings, dictionaries (entries in
   * insertion order), lists, and every other value (numbers, booleans, null).
   */
  datatype Json = JStr(s: string) | JObj(entries: seq<(string, Json)>) | JArr(items: seq<Json>) | JOther

  /** Python truthiness of a search result: a string that is present and non-empty. */
  predicate Truthy(r: Option<string>)
  {
    r.Some? && r.value != []
  }

  /** Entry `i` is the first entry of the dictionary whose key is `"text"`. */
  ghost predicate FirstTextKey(entries: seq<(string, Json)>, i: int)
  {
    0 <= i < |entries| && entries[i].0 == "text" && forall k :: 0 <= k < i ==> entries[k].0 != "text"
  }

  /**
   * `obj["text"]` when it is present and a string: nothing without a
   * `"text"` key, and otherwise the string value of the first entry with
   * that key, or nothing when that value is not a string.
   */
  function TextField(entries: seq<(string, Json)>): (r: Option<string>)
    ensures (forall i :: 0 <= i < |entries| ==> entries[i].0 != "text") ==> r.None?
    ensures forall i :: FirstTextKey(entries, i) ==> (r.Some? <==> entries[i].1.JStr?) && (r.Some? ==> entries[i].1 == JStr(r.value))
    ensures r.Some? ==> exists i :: 0 <= i < |entries| && entries[i] == ("text", JStr(r.value))
  {
    if entries == [] then None
    else if entries[0].0 == "text" then
      assert forall i :: FirstTextKey(entries, i) ==> i == 0;
      if entries[0].1.JStr? then Some(entries[0].1.s) else None
    else
      var r := TextField(entries[1..]);
      assert forall i :: FirstTextKey(entries, i) ==> FirstTextKey(entries[1..], i - 1);
      assert (forall i :: 0 <= i < |entries| ==> entries[i].0 != "text") ==>
        forall i :: 0 <= i < |entries[1..]| ==> entries[1..][i].0 != "text";
      assert r.Some? ==> exists i :: 0 <= i < |entries[1..]| && entries[1..][i] == ("text", JStr(r.value));
      r
  }

  /**
   * `find_text`: a dictionary's own string `"text"` is returned at once,
   * whatever it is; otherwise the values of a dictionary, or the items of a
   * list, are searched in order and the first truthy result is returned.
   * An empty result can only be a dictionary's own empty `"text"`.
   */
  function FindText(j: Json): (r: Option<string>)
    ensures r.Some? && r.value == [] ==> j.JObj? && TextField(j.entries) == Some([])
    decreases j, 1
  {
    match j
    case JObj(entries) =>
      var own := TextField(entries);
      if own.Some? then own else FindInEntries(entries)
    case JArr(items) => FindInItems(items)
    case _ => None
  }

  /** The loop over `obj.values()`: the first value whose search is truthy. */
  function FindInEntries(entries: seq<(string, Json)>): (r: Option<string>)
    ensures r.Some? ==> r.value != []
    decreases entries, 0
  {
    if entries == [] then None
    else
      assert entries[0].1 < entries[0];
      var first := FindText(entries[0].1);
      if Truthy(first) then first else FindInEntries(entries[1..])
  }

  /** The loop over a list: the first item whose search is truthy. */
  function FindInItems(items: seq<Json>): (r: Option<string>)
    ensures r.Some? ==> r.value != []
    decreases items, 0
  {
    if items == [] then None
    else
      var first := FindText(items[0]);
      if Truthy(first) then first else FindInItems(items[1..])
  }

  /* Reference definition of the search: the candidate strings in visiting order. */

  /**
   * The strings the search can report, in the order it visits them: a
   * dictionary with its own string `"text"` offers just that string, any
   * other dictionary the candidates of its values, a list those of its items.
   */
  function Candidates(j: Json): (cs: seq<string>)
    decreases j, 1
  {
    match j
    case JObj(entries) =>
      var own := TextField(entries);
      if own.Some? then [own.value] else EntryCandidates(entries)
    case JArr(items) => ItemCandidates(items)
    case _ => []
  }

  function EntryCandidates(entries: seq<(string, Json)>): (cs: seq<string>)
    decreases entries, 0
  {
    if entries == [] then []
    else
      assert entries[0].1 < entries[0];
      Candidates(entries[0].1) + EntryCandidates(entries[1..])
  }

  function ItemCandidates(items: seq<Json>): (cs: seq<string>)
    decreases items, 0
  {
    if items == [] then [] else Candidates(items[0]) + ItemCandidates(items[1..])
  }

  /** The first non-empty string of `cs`, if there is one. */
  function FirstNonEmpty(cs: seq<string>): (r: Option<string>)
    ensures r.Some? <==> exists i :: 0 <= i < |cs| && cs[i] != []
    ensures r.Some? ==> r.value != [] && r.value in cs
  {
    if cs == [] then None
    else if cs[0] != [] then Some(cs[0])
    else
      var r := FirstNonEmpty(cs[1..]);
      assert forall i :: 0 < i < |cs| ==> cs[i] == cs[1..][i - 1];
      r
  }

  /** `FirstNonEmpty` finds the first non-empty string: every string before it is empty. */
  lemma {:induction false} FirstNonEmptyIsFirst(cs: seq<string>)
    ensures FirstNonEmpty(cs).Some? ==>
      exists i :: 0 <= i < |cs| && cs[i] == FirstNonEmpty(cs).value && forall k :: 0 <= k < i ==> cs[k] == []
  {
    if cs != [] && cs[0] == [] {
      FirstNonEmptyIsFirst(cs[1..]);
      if FirstNonEmpty(cs).Some? {
        var i :| 0 <= i < |cs[1..]| && cs[1..][i] == FirstNonEmpty(cs).value && forall k :: 0 <= k < i ==> cs[1..][k] == [];
        assert forall k :: 0 <= k < i + 1 ==> cs[k] == [] by {
          forall k | 0 < k < i + 1 ensures cs[k] == [] { assert cs[k] == cs[1..][k - 1]; }
        }
        assert cs[i + 1] == FirstNonEmpty(cs).value;
      }
    }
  }

  /** The search result as its parent sees it: empty strings count as nothing. */
  function AsParentSees(r: Option<string>): (p: Option<string>)
    ensures Truthy(p) <==> p.Some?
  {
    if Truthy(r) then r else None
  }

  lemma {:induction false} FirstNonEmptyAppend(a: seq<string>, b: seq<string>)
    ensures FirstNonEmpty(a + b) == if FirstNonEmpty(a).Some? then FirstNonEmpty(a) else FirstNonEmpty(b)
  {
    if a != [] {
      assert (a + b)[1..] == a[1..] + b;
      FirstNonEmptyAppend(a[1..], b);
    } else {
      assert a + b == b;
    }
  }

  /** Seen from its parent, `find_text` reports the first non-empty candidate of the tree. */
  lemma {:induction false} FindTextIsFirstCandidate(j: Json)
    ensures AsParentSees(FindText(j)) == FirstNonEmpty(Candidates(j))
    decreases j, 1
  {
    match j
    case JObj(entries) =>
      if TextField(entries).None? {
        FindInEntriesIsFirstCandidate(entries);
      }
    case JArr(items) => FindInItemsIsFirstCandidate(items);
    case _ =>
  }

  lemma {:induction false} FindInEntriesIsFirstCandidate(entries: seq<(string, Json)>)
    ensures FindInEntries(entries) == FirstNonEmpty(EntryCandidates(entries))
    decreases entries, 0
  {
    if entries != [] {
      assert entries[0].1 < entries[0];
      FindTextIsFirstCandidate(entries[0].1);
      FindInEntriesIsFirstCandidate(entries[1..]);
      FirstNonEmptyAppend(Candidates(entries[0].1), EntryCandidates(entries[1..]));
    }
  }

  lemma {:induction false} FindInItemsIsFirstCandidate(items: seq<Json>)
    ensures FindInItems(items) == FirstNonEmpty(ItemCandidates(items))
    decreases items, 0
  {
    if items != [] {
      FindTextIsFirstCandidate(items[0]);
      FindInItemsIsFirstCandidate(items[1..]);
      FirstNonEmptyAppend(Candidates(items[0]), ItemCandidates(items[1..]));
    }
  }

  /** `s` is the string value of a `"text"` key somewhere in the tree. */
  ghost predicate HasText(j: Json, s: string)
    decreases j
  {
    match j
    case JObj(entries) =>
      exists i :: 0 <= i < |entries| && (entries[i] == ("text", JStr(s)) || HasText(entries[i].1, s))
    case JArr(items) => exists i :: 0 <= i < |items| && HasText(items[i], s)
    case _ => false
  }

  /** Every candidate is a `"text"` string of the tree. */
  lemma {:induction false} CandidatesSound(j: Json, s: string)
    requires s in Candidates(j)
    ensures HasText(j, s)
    decreases j, 1
  {
    match j
    case JObj(entries) =>
      if TextField(entries).None? {
        var i := EntryCandidatesSound(entries, s);
        assert entries[i].1 < j;
      }
    case JArr(items) =>
      var i := ItemCandidatesSound(items, s);
  }

  lemma {:induction false} EntryCandidatesSound(entries: seq<(string, Json)>, s: string) returns (i: nat)
    requires s in EntryCandidates(entries)
    ensures i < |entries| && HasText(entries[i].1, s)
    decreases entries, 0
  {
    assert entries[0].1 < entries[0];
    if s in Candidates(entries[0].1) {
      CandidatesSound(entries[0].1, s);
      i := 0;
    } else {
      var k := EntryCandidatesSound(entries[1..], s);
      i := k + 1;
    }
  }

  lemma {:induction false} ItemCandidatesSound(items: seq<Json>, s: string) returns (i: nat)
    requires s in ItemCandidates(items)
    ensures i < |items| && HasText(items[i], s)
    decreases items, 0
  {
    if s in Candidates(items[0]) {
      CandidatesSound(items[0], s);
      i := 0;
    } else {
      var k := ItemCandidatesSound(items[1..], s);
      i := k + 1;
    }
  }

  /** Whatever `find_text` returns is the value of some `"text"` key of the tree. */
  lemma FindTextSound(j: Json)
    ensures FindText(j).Some? ==> HasText(j, FindText(j).value)
  {
    if FindText(j).None? {
    } else if j.JObj? && TextField(j.entries).Some? {
      var i :| 0 <= i < |j.entries| && j.entries[i] == ("text", JStr(FindText(j).value));
    } else {
      FindTextIsFirstCandidate(j);
      CandidatesSound(j, FindText(j).value);
    }
  }

  /**
   * A dictionary's own string `"text"` is returned before any of its values
   * is searched, wherever the entry stands.
   */
  lemma OwnTextFirst(entries: seq<(string, Json)>, i: nat, s: string)
    requires FirstTextKey(entries, i) && entries[i].1 == JStr(s)
    ensures FindText(JObj(entries)) == Some(s)
  {
  }

  /** A `"text"` that is not a string, wherever it stands, is searched into like any other value. */
  lemma NonStringTextSearched(entries: seq<(string, Json)>, i: nat)
    requires FirstTextKey(entries, i) && !entries[i].1.JStr?
    ensures FindText(JObj(entries)) == FindInEntries(entries)
  {
  }

  /** A dictionary without a `"text"` key is searched through its values. */
  lemma NoTextKeySearched(entries: seq<(string, Json)>)
    requires forall i :: 0 <= i < |entries| ==> entries[i].0 != "text"
    ensures FindText(JObj(entries)) == FindInEntries(entries)
  {
  }

  /**
   * At the root an empty `"text"` is the result; one level down it is passed
   * over; and a dictionary's own empty `"text"` hides its other values.
   */
  lemma EmptyTextExamples()
    ensures FindText(JObj([("text", JStr(""))])) == Some("")
    ensures FindText(JArr([JObj([("text", JStr(""))]), JObj([("text", JStr("Hello"))])])) == Some("Hello")
    ensures FindText(JObj([("a", JObj([("text", JStr(""))])), ("b", JStr("Hello"))])) == None
    ensures FindText(JArr([JObj([("text", JStr("")), ("x", JObj([("text", JStr("Hi"))]))])])) == None
  {
  }

  /** Scalars and other values contain no text. */
  lemma ScalarsFindNothing(j: Json)
    requires j.JStr? || j.JOther?
    ensures FindText(j) == None && Candidates(j) == []
  {
  }

  /* The text of a response. */

  /**
   * The reply text: `response.text` when it is a string and non-empty;
   * otherwise, when the dictionary form is available and not empty, the
   * search over it; otherwise whatever `response.text` gave.
   * `direct` is None when the attribute is missing, not a string, or raises;
   * `asDict` is None when `to_dict` is missing or raises.
   */
  function ResponseText(direct: Option<string>, asDict: Option<seq<(string, Json)>>): (text: Option<string>)
    ensures Truthy(direct) ==> text == direct
    ensures text.Some? ==> text == direct || (asDict.Some? && HasText(JObj(asDict.value), text.value))
    ensures !Truthy(direct) && asDict.Some? && asDict.value != [] ==> text == FindText(JObj(asDict.value))
    ensures !Truthy(direct) && (asDict.None? || asDict.value == []) ==> text == direct
  {
    if Truthy(direct) then direct
    else if asDict.Some? && asDict.value != [] then
      var found := FindText(JObj(asDict.value));
      FindTextSound(JObj(asDict.value));
      found
    else direct
  }

  /** The reply counts as a success exactly when there is a non-empty text, its own or one found in the tree. */
  lemma ResponseSucceeds(direct: Option<string>, asDict: Option<seq<(string, Json)>>)
    ensures Truthy(ResponseText(direct, asDict)) <==>
      Truthy(direct) || (asDict.Some? && asDict.value != [] && FirstNonEmpty(Candidates(JObj(asDict.value))).Some?)
  {
    if asDict.Some? {
      FindTextIsFirstCandidate(JObj(asDict.value));
    }
  }

  /* Hints for a failed call. */

  /** The advice printed after a failure. */
  datatype Hint = QuotaHint | InvalidKeyHint | NoHint

  /**
   * Quota first (`429`, or `quota` in any case), then a bad key (`403`, or
   * `invalid` in any case), otherwise nothing.
   */
  function HintFor(message: string): (h: Hint)
    ensures h == QuotaHint <==> Contains(message, "429") || Contains(Lower(message), "quota")
    ensures h == InvalidKeyHint <==>
      !(Contains(message, "429") || Contains(Lower(message), "quota"))
      && (Contains(message, "403") || Contains(Lower(message), "invalid"))
  {
    if Contains(message, "429") || Contains(Lower(message), "quota") then QuotaHint
    else if Contains(message, "403") || Contains(Lower(message), "invalid") then InvalidKeyHint
    else NoHint
  }

  /** Lower-casing is idempotent. */
  lemma LowerIdempotent(s: string)
    ensures Lower(Lower(s)) == Lower(s)
  {
    assert forall i :: 0 <= i < |s| ==> LowerChar(LowerChar(s[i])) == LowerChar(s[i]);
  }

  /** At one position, lower-casing neither creates nor destroys a run of digits. */
  lemma DigitRunSurvivesLower(s: string, digits: string, i: nat)
    requires forall k :: 0 <= k < |digits| ==> '0' <= digits[k] <= '9'
    requires i + |digits| <= |s|
    ensures Lower(s)[i..i + |digits|] == digits <==> s[i..i + |digits|] == digits
  {
    var lowered, original := Lower(s)[i..i + |digits|], s[i..i + |digits|];
    assert forall k :: 0 <= k < |digits| ==> lowered[k] == LowerChar(original[k]);
    assert forall k :: 0 <= k < |digits| ==> (LowerChar(original[k]) == digits[k] <==> original[k] == digits[k]);
  }

  /** Lower-casing a message neither creates nor destroys an occurrence of a string of digits. */
  lemma DigitsSurviveLower(s: string, digits: string)
    requires forall k :: 0 <= k < |digits| ==> '0' <= digits[k] <= '9'
    ensures Contains(Lower(s), digits) == Contains(s, digits)
  {
    forall i | 0 <= i && i + |digits| <= |s|
      ensures OccursAt(Lower(s), digits, i) <==> OccursAt(s, digits, i)
    {
      DigitRunSurvivesLower(s, digits, i);
    }
  }

  /** The hint does not depend on the case of the message. */
  lemma HintIgnoresCase(message: string)
    ensures HintFor(Lower(message)) == HintFor(message)
  {
    LowerIdempotent(message);
    DigitsSurviveLower(message, "429");
    DigitsSurviveLower(message, "403");
  }

  /** A message that names both a quota and a bad key is classified as a quota problem. */
  lemma QuotaBeforeInvalid(message: string)
    requires Contains(message, "429") && Contains(message, "403")
    ensures HintFor(message) == QuotaHint
  {
  }

  /** A rate-limit status gives the quota hint. */
  lemma QuotaStatusExample()
    ensures HintFor("429 Resource exhausted") == QuotaHint
  {
    assert OccursAt("429 Resource exhausted", "429", 0);
  }

  /** The word quota, in any case, gives the quota hint. */
  lemma QuotaWordExample()
    ensures HintFor("Quota exceeded") == QuotaHint
  {
    assert Lower("Quota exceeded")[..5] == "quota";
    assert OccursAt(Lower("Quota exceeded"), "quota", 0);
  }

  /* The whole connection test. */

  /** What the `generate_content` call did: answered, or raised with a message. */
  datatype CallOutcome = Responded(direct: Option<string>, asDict: Option<seq<(string, Json)>>) | Raised(message: string)

  /** The verdict of `test_gemini_connection` and the hint it printed. */
  datatype Verdict = Verdict(ok: bool, hint: Hint)

  /**
   * `test_gemini_connection`: fails without an API key or without the SDK;
   * otherwise succeeds exactly when the reply has a non-empty text, and a
   * raised call is classified into a hint.
   */
  function ConnectionTest(apiKey: Option<string>, sdkAvailable: bool, call: CallOutcome): (v: Verdict)
    ensures v.ok <==> Truthy(apiKey) && sdkAvailable && call.Responded? && Truthy(ResponseText(call.direct, call.asDict))
    ensures v.hint != NoHint ==> !v.ok && call.Raised? && v.hint == HintFor(call.message)
    ensures Truthy(apiKey) && sdkAvailable && call.Raised? ==> v.hint == HintFor(call.message)
    ensures !(Truthy(apiKey) && sdkAvailable) ==> !v.ok && v.hint == NoHint
  {
    if !Truthy(apiKey) || !sdkAvailable then Verdict(false, NoHint)
    else
      match call
      case Responded(direct, asDict) => Verdict(Truthy(ResponseText(direct, asDict)), NoHint)
      case Raised(message) => Verdict(false, HintFor(message))
  }
}

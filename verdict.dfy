/** The verdict `classify_email` returns (backend/app.py:127-138): the model's reply parsed
    as JSON, or, when that parse fails, a fixed fallback verdict carrying the raw reply;
    either way wrapped under the key `result`. */
module Verdict {

  datatype Option<T> = None | Some(value: T)

  /** A JSON value; an object keeps its members in insertion order, like a Python dict. */
  datatype Json =
    | JNull
    | JBool(b: bool)
    | JInt(i: int)
    | JReal(x: real)
    | JString(s: string)
    | JArray(items: seq<Json>)
    | JObject(members: seq<(string, Json)>)

  /** The value stored under `key` in an object, if any. */
  function Get(j: Json, key: string): Option<Json> {
    if j.JObject? then Lookup(j.members, key) else None
  }

  function Lookup(members: seq<(string, Json)>, key: string): Option<Json> {
    if members == [] then None
    else if members[0].0 == key then Some(members[0].1)
    else Lookup(members[1..], key)
  }

  /** The keys of an object's members, in order. */
  function Keys(members: seq<(string, Json)>): (ks: seq<string>)
    ensures |ks| == |members|
    ensures forall i :: 0 <= i < |members| ==> ks[i] == members[i].0
  {
    if members == [] then [] else [members[0].0] + Keys(members[1..])
  }

  /** The verdict built when the reply does not parse. */
  function Fallback(reply: string): Json {
    JObject([
      ("is_phishing", JBool(false)),
      ("phishing_score", JInt(0)),
      ("brand_impersonated", JNull),
      ("rationales", JString(reply)),
      ("brief_reason", JString("Parsing error"))
    ])
  }

  /** `response_json`: the parsed reply, or the fallback when `json.loads` fails. */
  function Decide(parsed: Option<Json>, reply: string): Json {
    match parsed
    case Some(j) => j
    case None => Fallback(reply)
  }

  /** `{"result": response_json}`. */
  function Respond(parsed: Option<Json>, reply: string): (r: Json)
    ensures r.JObject? && Keys(r.members) == ["result"]
    ensures parsed.Some? ==> Get(r, "result") == parsed
    ensures parsed.None? ==> Get(r, "result") == Some(Fallback(reply))
  {
    JObject([("result", Decide(parsed, reply))])
  }

  /** The fallback says: not phishing, score 0, no brand, the whole reply as rationale, and
      "Parsing error" as the brief reason; it has exactly these five keys, in this order. */
  lemma FallbackFields(reply: string)
    ensures Keys(Fallback(reply).members) ==
      ["is_phishing", "phishing_score", "brand_impersonated", "rationales", "brief_reason"]
    ensures Get(Fallback(reply), "is_phishing") == Some(JBool(false))
    ensures Get(Fallback(reply), "phishing_score") == Some(JInt(0))
    ensures Get(Fallback(reply), "brand_impersonated") == Some(JNull)
    ensures Get(Fallback(reply), "rationales") == Some(JString(reply))
    ensures Get(Fallback(reply), "brief_reason") == Some(JString("Parsing error"))
  {
    var m := Fallback(reply).members;
    assert m[1..][1..][1..][1..][1..] == [];
    LookupAt(m, 1, "phishing_score");
    LookupAt(m, 2, "brand_impersonated");
    LookupAt(m, 3, "rationales");
    LookupAt(m, 4, "brief_reason");
  }

  /** The first member with the key is the one found. */
  lemma {:induction false} LookupAt(members: seq<(string, Json)>, i: nat, key: string)
    requires i < |members| && members[i].0 == key
    requires forall k :: 0 <= k < i ==> members[k].0 != key
    ensures Lookup(members, key) == Some(members[i].1)
  {
    if i > 0 {
      LookupAt(members[1..], i - 1, key);
    }
  }
}

/** The JSON values that `serde_json` produces and reads for the service's records. */
module Json {
  import opened Wrappers

  datatype Json =
    | Null
    | Number(n: int)
    | Str(s: string)
    | Array(items: seq<Json>)
    | Object(members: seq<(string, Json)>)

  /** The member names of an object, in the order they are written. */
  function Names(members: seq<(string, Json)>): (names: seq<string>)
    ensures |names| == |members|
    ensures forall i :: 0 <= i < |members| ==> names[i] == members[i].0
  {
    seq(|members|, i requires 0 <= i < |members| => members[i].0)
  }

  /** The value of the first member called `name`. */
  function Get(members: seq<(string, Json)>, name: string): (r: Option<Json>)
    ensures r.Some? <==> name in Names(members)
    ensures r.Some? ==> (name, r.value) in members
  {
    if members == [] then None
    else if members[0].0 == name then Some(members[0].1)
    else
      assert Names(members) == [members[0].0] + Names(members[1..]);
      Get(members[1..], name)
  }
}

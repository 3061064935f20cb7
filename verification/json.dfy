/** JSON values as Python's `json` module hands them over, and key lookup on objects. */
module Json {
  import opened Basics

  /** A decoded JSON value. Numbers keep their text; objects keep their members in document
      order, repeated keys included. */
  datatype Json =
    | JNull
    | JBool(b: bool)
    | JNum(lexeme: string)
    | JStr(s: string)
    | JArr(items: seq<Json>)
    | JObj(members: seq<(string, Json)>)

  /** `obj[key]` on a decoded object: Python's decoder keeps the last of repeated keys, so
      the last member with that key wins; None stands for the `KeyError`. */
  function Lookup(members: seq<(string, Json)>, key: string): (r: Option<Json>)
    ensures r.None? <==> forall i :: 0 <= i < |members| ==> members[i].0 != key
    ensures r.Some? ==> exists i :: 0 <= i < |members| && members[i] == (key, r.value)
                                    && forall j :: i < j < |members| ==> members[j].0 != key
    decreases |members|
  {
    if |members| == 0 then None
    else
      var n := |members| - 1;
      if members[n].0 == key then Some(members[n].1)
      else
        var r := Lookup(members[..n], key);
        assert forall i :: 0 <= i < n ==> members[..n][i] == members[i];
        r
  }

  /** `value[key]` on any value: only objects have keys. */
  function Member(value: Json, key: string): Option<Json>
  {
    if value.JObj? then Lookup(value.members, key) else None
  }

  /** Appending a member makes it the one a lookup of its key returns, and leaves lookups
      of every other key as they were. */
  lemma LookupAppend(members: seq<(string, Json)>, key: string, value: Json, other: string)
    ensures Lookup(members + [(key, value)], key) == Some(value)
    ensures other != key ==> Lookup(members + [(key, value)], other) == Lookup(members, other)
  {
    assert (members + [(key, value)])[..|members|] == members;
  }
}

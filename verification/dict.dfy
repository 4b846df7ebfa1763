/** Reading string-valued dictionaries the way both scripts do. */
module Dict {
  /** `m.get(k)`, with a missing value read as the empty string (both are
   *  falsy wherever the scripts test them). */
  function Lookup(m: map<string, string>, k: string): string {
    if k in m then m[k] else ""
  }

  /** `m.get(a) or m.get(b) or ...`: the first non-empty value. */
  function FirstNonEmpty(m: map<string, string>, names: seq<string>): (r: string)
    ensures r == [] <==> forall i :: 0 <= i < |names| ==> Lookup(m, names[i]) == []
    ensures r != [] ==> exists i :: 0 <= i < |names| && r == Lookup(m, names[i])
                          && forall j :: 0 <= j < i ==> Lookup(m, names[j]) == []
  {
    if names == [] then []
    else if Lookup(m, names[0]) != [] then Lookup(m, names[0])
    else
      var r := FirstNonEmpty(m, names[1..]);
      assert forall i :: 1 <= i < |names| ==> names[i] == names[1..][i - 1];
      r
  }
}

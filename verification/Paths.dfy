/** Cutting a path at its first slash. */
module Paths {

  /** What stands before the first slash, or everything. */
  function UpToSlash(s: string): (r: string)
    ensures '/' !in r && r <= s
    ensures |r| < |s| ==> s[|r|] == '/'
  {
    if s == "" || s[0] == '/' then "" else [s[0]] + UpToSlash(s[1..])
  }

  lemma {:induction false} UpToSlashStops(name: string, rest: string)
    requires '/' !in name && (rest == "" || rest[0] == '/')
    ensures UpToSlash(name + rest) == name
  {
    if name == "" {
      assert name + rest == rest;
    } else {
      var x := name[0];
      assert x in name;
      assert (name + rest)[1..] == name[1..] + rest;
      UpToSlashStops(name[1..], rest);
    }
  }
}

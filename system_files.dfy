/**
  The script's system-file heuristic: a path is a system file when one of a
  fixed list of directory fragments occurs anywhere in it.
 */
module SystemFiles {

  /** The fragments `is_system_file` looks for, in the script's order. */
  const SystemPaths: seq<string> := [
    "/System/", "/Windows/", "/Program Files/", "/Program Files (x86)/",
    "/Library/", "/bin/", "/etc/", "/var/", "/usr/"
  ]

  /** `f` occurs in `s` starting at index `k`. */
  predicate OccursAt(f: string, s: string, k: int) {
    0 <= k <= |s| - |f| && s[k..k + |f|] == f
  }

  /** Python's `f in s` for strings, by trying each starting position in turn. */
  function IsSubstring(f: string, s: string): (r: bool)
    ensures r <==> exists k :: OccursAt(f, s, k)
    decreases |s|
  {
    if |f| > |s| then false
    else if s[..|f|] == f then
      assert OccursAt(f, s, 0);
      true
    else
      var r := IsSubstring(f, s[1..]);
      assert forall k :: OccursAt(f, s[1..], k) <==> OccursAt(f, s, k + 1) by {
        forall k ensures OccursAt(f, s[1..], k) <==> OccursAt(f, s, k + 1) {
          if 0 <= k <= |s| - 1 - |f| {
            assert s[1..][k..k + |f|] == s[k + 1..k + 1 + |f|];
          }
        }
      }
      assert !OccursAt(f, s, 0);
      assert r ==> exists k :: OccursAt(f, s, k) by {
        if r {
          var k :| OccursAt(f, s[1..], k);
          assert OccursAt(f, s, k + 1);
        }
      }
      assert (exists k :: OccursAt(f, s, k)) ==> r by {
        if exists k :: OccursAt(f, s, k) {
          var k :| OccursAt(f, s, k);
          assert OccursAt(f, s[1..], k - 1);
        }
      }
      r
  }

  /** Whether some fragment of `frags` occurs in `p`: the `any(...)` of the script. */
  function AnyFragment(frags: seq<string>, p: string): (r: bool)
    ensures r <==> exists i :: 0 <= i < |frags| && IsSubstring(frags[i], p)
  {
    if frags == [] then false
    else
      assert forall i :: 1 <= i < |frags| ==> frags[i] == frags[1..][i - 1];
      IsSubstring(frags[0], p) || AnyFragment(frags[1..], p)
  }

  /** `is_system_file(filepath)`. */
  function IsSystemFile(p: string): (r: bool)
    ensures r <==> exists i :: 0 <= i < |SystemPaths| && IsSubstring(SystemPaths[i], p)
  {
    AnyFragment(SystemPaths, p)
  }

  /** A fragment anywhere in the path counts, not only at its start. */
  lemma FragmentAnywhere()
    ensures IsSystemFile("/home/me/bin/tool")
  {
    var p := "/home/me/bin/tool";
    assert p[8..13] == "/bin/";
    assert OccursAt(SystemPaths[5], p, 8);
  }
}

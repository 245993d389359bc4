/**
  The pieces of Python's `posixpath` and `pathlib.PurePosixPath` that the
  script relies on, over paths as character strings: `os.path.join` of two
  components, `basename`, `dirname`, `splitext`'s extension, `str.lower`,
  `str.split('/')` and `Path(p).parts`.
 */
module PathNames {
  import opened SeqFacts

  const Sep: char := '/'

  /** `s.rfind(c)`: the index of the last `c` in `s`, or -1 when there is none. */
  function RFind(s: string, c: char): (r: int)
    ensures -1 <= r < |s|
    ensures r >= 0 ==> s[r] == c
    ensures forall k :: r < k < |s| ==> s[k] != c
    decreases |s|
  {
    if |s| == 0 then -1
    else if s[|s| - 1] == c then |s| - 1
    else RFind(s[..|s| - 1], c)
  }

  predicate AllSlashes(s: string) {
    forall i :: 0 <= i < |s| ==> s[i] == Sep
  }

  /** A name that a directory listing can return for an entry. */
  predicate ValidName(name: string) {
    name != "" && Sep !in name && name != "." && name != ".."
  }

  /** `os.path.join(a, b)` on POSIX, for two components. */
  function Join(a: string, b: string): (r: string)
    ensures |b| <= |r| && r[|r| - |b|..] == b
  {
    if |b| > 0 && b[0] == Sep then b
    else if a == "" || a[|a| - 1] == Sep then a + b
    else a + [Sep] + b
  }

  /** `os.path.basename(p)`: everything after the last separator. */
  function Basename(p: string): (r: string)
    ensures Sep !in r
    ensures |r| <= |p| && r == p[|p| - |r|..]
    ensures |r| < |p| ==> p[|p| - |r| - 1] == Sep
  {
    p[RFind(p, Sep) + 1..]
  }

  /** `s.rstrip('/')`. */
  function RStripSlashes(s: string): (r: string)
    ensures |r| <= |s| && r == s[..|r|]
    ensures r == "" || r[|r| - 1] != Sep
    ensures AllSlashes(s[|r|..])
    decreases |s|
  {
    if s != "" && s[|s| - 1] == Sep then
      var r := RStripSlashes(s[..|s| - 1]);
      assert s[|r|..] == s[..|s| - 1][|r|..] + [Sep];
      r
    else s
  }

  /**
    `os.path.dirname(p)`: the text up to the last separator, with trailing
    separators removed unless it consists of separators only.
   */
  function Dirname(p: string): (r: string)
    ensures |r| <= |p| && r == p[..|r|]
    ensures r == "" <==> Sep !in p
    ensures r != "" && !AllSlashes(r) ==> r[|r| - 1] != Sep
    ensures |r| <= |p| - |Basename(p)|
    ensures AllSlashes(p[|r|..|p| - |Basename(p)|])
    ensures AllSlashes(r) ==> |r| == |p| - |Basename(p)|
  {
    var i := RFind(p, Sep);
    var head := p[..i + 1];
    assert |Basename(p)| == |p| - |head|;
    SepFound(p, i);
    if head != "" && !AllSlashes(head) then
      var r := RStripSlashes(head);
      StripKeepsContent(head);
      assert p[|r|..|head|] == head[|r|..];
      r
    else head
  }

  /** The last separator found by `RFind` is the one `in` sees. */
  lemma SepFound(p: string, i: int)
    requires i == RFind(p, Sep)
    ensures Sep in p <==> i >= 0
  {
    if i >= 0 {
      assert p[i] == Sep;
    }
  }

  /** Stripping trailing separators from a string with another character leaves that character. */
  lemma StripKeepsContent(s: string)
    requires !AllSlashes(s)
    ensures var r := RStripSlashes(s); r != "" && !AllSlashes(r)
  {
    var k :| 0 <= k < |s| && s[k] != Sep;
    StripKeeps(s, k);
  }

  /** A non-separator is never stripped. */
  lemma {:induction false} StripKeeps(s: string, k: nat)
    requires k < |s| && s[k] != Sep
    ensures k < |RStripSlashes(s)| && RStripSlashes(s)[k] == s[k]
    decreases |s|
  {
    if s[|s| - 1] == Sep {
      StripKeeps(s[..|s| - 1], k);
    }
  }

  /**
    The extension that `os.path.splitext(p)` splits off: from the last dot of
    the base name to the end, provided some character other than a dot
    precedes that dot in the base name; otherwise empty.
   */
  function Extension(p: string): (r: string)
    ensures r == "" || (r[0] == '.' && Sep !in r && '.' !in r[1..])
    ensures |r| <= |p| && r == p[|p| - |r|..]
    ensures r != "" ==> |r| < |Basename(p)|
    ensures var b := Basename(p);
            r != "" <==> exists j, k :: 0 <= j < k < |b| && b[j] != '.' && b[k] == '.'
  {
    if Splits(p) then
      ExtensionFound(p);
      var dot := RFind(p, '.');
      assert |p| - |p[dot..]| == dot;
      p[dot..]
    else
      ExtensionAbsent(p);
      ""
  }

  /** `splitext`'s test: the last dot is in the base name and a non-dot precedes it there. */
  predicate Splits(p: string) {
    var sep := RFind(p, Sep);
    var dot := RFind(p, '.');
    dot > sep && exists k :: sep + 1 <= k < dot && p[k] != '.'
  }

  /** No `c` after index `i` means no `c` in the tail after `i`. */
  lemma NotInTail(p: string, c: char, i: int)
    requires -1 <= i < |p|
    requires forall k :: i < k < |p| ==> p[k] != c
    ensures c !in p[i + 1..]
  {
    var t := p[i + 1..];
    forall j | 0 <= j < |t|
      ensures t[j] != c
    {
      assert t[j] == p[i + 1 + j];
    }
  }

  /** When `splitext` splits, the extension is a dotted, slash-free tail of the base name. */
  lemma ExtensionFound(p: string)
    requires Splits(p)
    ensures var r := p[RFind(p, '.')..];
      r[0] == '.' && Sep !in r && '.' !in r[1..] && |r| < |Basename(p)|
    ensures var b := Basename(p); exists j, k :: 0 <= j < k < |b| && b[j] != '.' && b[k] == '.'
  {
    var sep := RFind(p, Sep);
    var dot := RFind(p, '.');
    var k :| sep + 1 <= k < dot && p[k] != '.';
    ExtensionTail(p, sep, dot);
    ExtensionWitness(p, sep, dot, k);
  }

  /** The tail from the last dot holds no separator and no other dot. */
  lemma ExtensionTail(p: string, sep: int, dot: int)
    requires sep == RFind(p, Sep) && dot == RFind(p, '.') && sep < dot
    ensures var r := p[dot..]; r[0] == '.' && Sep !in r && '.' !in r[1..]
  {
    NotInTail(p, Sep, dot - 1);
    NotInTail(p, '.', dot);
    assert p[dot..][1..] == p[dot + 1..];
  }

  /** The non-dot before the last dot is a witness in the base name. */
  lemma ExtensionWitness(p: string, sep: int, dot: int, k: int)
    requires sep == RFind(p, Sep) && dot == RFind(p, '.')
    requires sep + 1 <= k < dot && p[k] != '.'
    ensures |p| - dot < |Basename(p)|
    ensures var b := Basename(p); exists j, k :: 0 <= j < k < |b| && b[j] != '.' && b[k] == '.'
  {
    var b := Basename(p);
    assert b == p[sep + 1..];
    assert b[k - sep - 1] == p[k] && b[dot - sep - 1] == p[dot];
  }

  /** Without the split there is no non-dot followed by a dot in the base name. */
  lemma ExtensionAbsent(p: string)
    requires !Splits(p)
    ensures var b := Basename(p); !exists j, k :: 0 <= j < k < |b| && b[j] != '.' && b[k] == '.'
  {
    var sep := RFind(p, Sep);
    var b := Basename(p);
    assert b == p[sep + 1..];
    forall j, k | 0 <= j < k < |b| && b[j] != '.'
      ensures b[k] != '.'
    {
      DotSplits(p, j, k);
    }
  }

  /** A dot after a non-dot in the base name is at or before the last dot, and that one splits. */
  lemma DotSplits(p: string, j: nat, k: nat)
    requires var b := Basename(p); j < k < |b| && b[j] != '.'
    ensures Basename(p)[k] == '.' ==> Splits(p)
  {
    var sep := RFind(p, Sep);
    var dot := RFind(p, '.');
    var b := Basename(p);
    assert b == p[sep + 1..];
    assert p[sep + 1 + k] == b[k] && p[sep + 1 + j] == b[j];
    if b[k] == '.' {
      assert sep + 1 + k <= dot;
    }
  }

  predicate IsUpper(c: char) {
    'A' <= c <= 'Z'
  }

  function LowerChar(c: char): char {
    if IsUpper(c) then (c as int + 32) as char else c
  }

  /** `s.lower()` on the ASCII letters. */
  function Lower(s: string): (r: string)
    ensures |r| == |s|
    ensures forall i :: 0 <= i < |r| ==> !IsUpper(r[i])
    ensures forall i :: 0 <= i < |r| && !IsUpper(s[i]) ==> r[i] == s[i]
    ensures forall i :: 0 <= i < |r| && IsUpper(s[i]) ==> r[i] as int == s[i] as int + 32
  {
    seq(|s|, i requires 0 <= i < |s| => LowerChar(s[i]))
  }

  /** Lower-casing twice is lower-casing once. */
  lemma LowerIdempotent(s: string)
    ensures Lower(Lower(s)) == Lower(s)
  {
  }

  /** `os.path.splitext(p)[1].lower()`, the record's `file_extension`. */
  function FileExtension(p: string): (r: string)
    ensures r == "" || r[0] == '.'
    ensures Sep !in r
    ensures |r| == |Extension(p)|
    ensures forall i :: 0 <= i < |r| ==> !IsUpper(r[i])
  {
    var e := Extension(p);
    LowerAvoids(e, Sep);
    Lower(e)
  }

  /** Lower-casing never introduces a character that is not a lower-case letter. */
  lemma LowerAvoids(s: string, c: char)
    requires c !in s && !IsUpper(c) && !('a' <= c <= 'z')
    ensures c !in Lower(s)
  {
    var r := Lower(s);
    forall i | 0 <= i < |r|
      ensures r[i] != c
    {
      assert s[i] in s;
    }
  }

  /** The pieces joined back with separators between them. */
  function JoinSlash(xs: seq<string>): string
    requires |xs| >= 1
  {
    if |xs| == 1 then xs[0] else JoinSlash(xs[..|xs| - 1]) + [Sep] + xs[|xs| - 1]
  }

  /** `s.split('/')`: the pieces between separators, empty ones included. */
  function Split(s: string): (r: seq<string>)
    ensures |r| >= 1
    ensures forall i :: 0 <= i < |r| ==> Sep !in r[i]
    decreases |s|
  {
    if |s| == 0 then [""]
    else
      var init := Split(s[..|s| - 1]);
      var c := s[|s| - 1];
      if c == Sep then init + [""]
      else
        var last := init[|init| - 1] + [c];
        assert Sep !in last by {
          assert forall y :: y in last ==> y in init[|init| - 1] || y == c;
        }
        init[..|init| - 1] + [last]
  }

  /** Joining the pieces of `s.split('/')` with separators gives back `s`. */
  lemma {:induction false} SplitRoundTrip(s: string)
    ensures JoinSlash(Split(s)) == s
    decreases |s|
  {
    if |s| > 0 {
      var init := Split(s[..|s| - 1]);
      var c := s[|s| - 1];
      SplitRoundTrip(s[..|s| - 1]);
      if c == Sep {
        assert s == s[..|s| - 1] + [Sep];
        assert (init + [""])[..|init|] == init;
      } else {
        var last := init[|init| - 1] + [c];
        var r := init[..|init| - 1] + [last];
        assert s == s[..|s| - 1] + [c];
        assert r[..|r| - 1] == init[..|init| - 1];
        if |init| > 1 {
          assert JoinSlash(init) == JoinSlash(init[..|init| - 1]) + [Sep] + init[|init| - 1];
        }
      }
    }
  }

  predicate IsComponent(x: string) {
    x != "" && x != "." && Sep !in x
  }

  /** The pieces that pathlib keeps: it drops empty pieces and ".". */
  function Components(xs: seq<string>): (r: seq<string>)
    ensures |r| <= |xs|
    ensures forall i :: 0 <= i < |r| ==> r[i] != "" && r[i] != "." && r[i] in xs
    ensures forall x :: x in r <==> x in xs && x != "" && x != "."
  {
    if xs == [] then []
    else
      var init := Components(xs[..|xs| - 1]);
      var x := xs[|xs| - 1];
      assert forall y :: y in xs <==> y in xs[..|xs| - 1] || y == x;
      if x != "" && x != "." then init + [x] else init
  }

  /** The anchor `Path(p).parts` begins with: "//" for exactly two leading separators. */
  function Anchor(p: string): string {
    if |p| == 0 || p[0] != Sep then ""
    else if |p| >= 2 && p[1] == Sep && (|p| == 2 || p[2] != Sep) then "//"
    else "/"
  }

  /**
    `Path(p).parts` for a POSIX path: the anchor, if any, followed by the
    non-empty pieces other than "." of the rest.
   */
  function Parts(p: string): (r: seq<string>)
    ensures Anchor(p) != "" ==> |r| >= 1 && r[0] == Anchor(p)
    ensures var first := if Anchor(p) == "" then 0 else 1;
            forall i :: first <= i < |r| ==> IsComponent(r[i])
  {
    var anchor := Anchor(p);
    var rest := Components(Split(p[|anchor|..]));
    assert forall i :: 0 <= i < |rest| ==> IsComponent(rest[i]);
    if anchor == "" then rest else [anchor] + rest
  }

  /** A join of a directory and a name is some `u` that is empty or ends in a separator, then the name. */
  lemma JoinShape(root: string, name: string) returns (u: string)
    requires ValidName(name)
    ensures Join(root, name) == u + name
    ensures u == "" || u[|u| - 1] == Sep
    ensures u == root || (root != "" && root[|root| - 1] != Sep && u == root + [Sep])
  {
    assert name[0] in name;
    if root == "" || root[|root| - 1] == Sep {
      u := root;
    } else {
      u := root + [Sep];
      assert Join(root, name) == root + [Sep] + name;
    }
  }

  /** The last separator of `u + name` is the last character of `u`. */
  lemma RFindBeforeName(u: string, name: string)
    requires u == "" || u[|u| - 1] == Sep
    requires Sep !in name
    ensures RFind(u + name, Sep) == |u| - 1
  {
    var p := u + name;
    var r := RFind(p, Sep);
    forall k | |u| <= k < |p|
      ensures p[k] != Sep
    {
      assert p[k] == name[k - |u|];
      assert name[k - |u|] in name;
    }
    if u != "" {
      assert p[|u| - 1] == Sep;
    }
  }

  /** A text without separators is a single piece. */
  lemma {:induction false} SplitNoSep(s: string)
    requires Sep !in s
    ensures Split(s) == [s]
    decreases |s|
  {
    if s != "" {
      var init := s[..|s| - 1];
      assert Sep !in init by {
        assert forall y :: y in init ==> y in s;
      }
      SplitNoSep(init);
      assert s[|s| - 1] in s;
      assert init + [s[|s| - 1]] == s;
    }
  }

  /** Appending a name after a separator replaces the trailing empty piece by the name. */
  lemma {:induction false} SplitAppendName(v: string, name: string)
    requires v == "" || v[|v| - 1] == Sep
    requires Sep !in name
    ensures var s := Split(v); s[|s| - 1] == ""
    ensures var s := Split(v); Split(v + name) == s[..|s| - 1] + [name]
    decreases |name|
  {
    var s := Split(v);
    if v != "" {
      assert v == v[..|v| - 1] + [Sep];
    }
    if name == [] {
      assert v + name == v;
    } else {
      var init := name[..|name| - 1];
      var c := name[|name| - 1];
      assert (v + name)[..|v + name| - 1] == v + init;
      assert (v + name)[|v + name| - 1] == c;
      assert c != Sep by { assert c in name; }
      assert Sep !in init by {
        assert forall y :: y in init ==> y in name;
      }
      SplitAppendName(v, init);
      var i := Split(v + init);
      assert i == s[..|s| - 1] + [init];
      assert i[..|i| - 1] == s[..|s| - 1];
      assert init + [c] == name;
    }
  }

  lemma ComponentsAppend(xs: seq<string>, x: string)
    ensures Components(xs + [x]) == Components(xs) + (if x != "" && x != "." then [x] else [])
  {
    assert (xs + [x])[..|xs|] == xs;
  }

  /** The anchor of `u + name` is that of `u` when `u` is empty or ends in a separator. */
  lemma AnchorBeforeName(u: string, name: string)
    requires u == "" || u[|u| - 1] == Sep
    requires ValidName(name)
    ensures Anchor(u + name) == Anchor(u)
    ensures |Anchor(u)| <= |u|
  {
    assert name[0] in name;
    var p := u + name;
    if |u| >= 3 {
      assert p[0] == u[0] && p[1] == u[1] && p[2] == u[2];
    } else if |u| == 2 {
      assert p[0] == u[0] && p[1] == u[1] && p[2] == name[0];
    } else if |u| == 1 {
      assert p[0] == u[0] && p[1] == name[0];
    }
  }

  /** Appending one separator to a directory that does not end in one keeps its parts. */
  lemma PartsOfTrailingSep(root: string)
    requires root != "" && root[|root| - 1] != Sep
    ensures Parts(root + [Sep]) == Parts(root)
  {
    var q := root + [Sep];
    AnchorOfTrailingSep(root);
    var a := Anchor(root);
    var w := root[|a|..];
    assert q[|a|..] == w + [Sep];
    SplitTrailingSep(w);
    ComponentsAppend(Split(w), "");
    PartsUnfold(q);
    PartsUnfold(root);
  }

  /** A trailing separator does not change the anchor. */
  lemma AnchorOfTrailingSep(root: string)
    requires root != "" && root[|root| - 1] != Sep
    ensures Anchor(root + [Sep]) == Anchor(root) && |Anchor(root)| <= |root|
  {
    var q := root + [Sep];
    if |root| >= 3 {
      assert q[0] == root[0] && q[1] == root[1] && q[2] == root[2];
    } else if |root| == 2 {
      assert q[0] == root[0] && q[1] == root[1];
    }
  }

  /** A trailing separator ends the split with an empty piece. */
  lemma SplitTrailingSep(w: string)
    ensures Split(w + [Sep]) == Split(w) + [""]
  {
    assert (w + [Sep])[..|w|] == w;
  }

  /** `Parts` spelled out: the anchor, if any, then the kept pieces of the rest. */
  lemma PartsUnfold(p: string)
    ensures |Anchor(p)| <= |p|
    ensures Parts(p) == (if Anchor(p) == "" then [] else [Anchor(p)]) + Components(Split(p[|Anchor(p)|..]))
  {
  }

  /** The kept pieces of `v + name`, for `v` empty or ending in a separator, end with the name. */
  lemma ComponentsAfterSep(v: string, name: string)
    requires v == "" || v[|v| - 1] == Sep
    requires ValidName(name)
    ensures Components(Split(v + name)) == Components(Split(v)) + [name]
  {
    SplitAppendName(v, name);
    var s := Split(v);
    var init := s[..|s| - 1];
    assert s == init + [""];
    ComponentsAppend(init, "");
    ComponentsAppend(init, name);
  }

  /** The parts of `u + name`, for `u` empty or ending in a separator, end with the name. */
  lemma PartsAfterSep(u: string, name: string)
    requires u == "" || u[|u| - 1] == Sep
    requires ValidName(name)
    ensures Parts(u + name) == Parts(u) + [name]
  {
    AnchorBeforeName(u, name);
    var a := Anchor(u);
    var p := u + name;
    var v := u[|a|..];
    assert p[|a|..] == v + name;
    assert v == "" || v[|v| - 1] == Sep by {
      if v != "" {
        assert v[|v| - 1] == u[|u| - 1];
      }
    }
    ComponentsAfterSep(v, name);
    PartsUnfold(p);
    PartsUnfold(u);
    var first: seq<string> := if a == "" then [] else [a];
    ConcatAssoc(first, Components(Split(v)), [name]);
  }

  /** `Path(os.path.join(root, name)).parts` is `Path(root).parts` followed by the name. */
  lemma PartsOfJoin(root: string, name: string)
    requires ValidName(name)
    ensures Parts(Join(root, name)) == Parts(root) + [name]
  {
    var u := JoinShape(root, name);
    PartsAfterSep(u, name);
    if u != root {
      PartsOfTrailingSep(root);
    }
  }

  /** A single name is a relative path of one part. */
  lemma PartsOfName(name: string)
    requires ValidName(name)
    ensures Parts(name) == [name]
  {
    assert name[0] in name;
    SplitNoSep(name);
  }

  /** The file name given to `os.path.join` is the record's `filename`. */
  lemma BasenameOfJoin(root: string, name: string)
    requires ValidName(name)
    ensures Basename(Join(root, name)) == name
  {
    var u := JoinShape(root, name);
    RFindBeforeName(u, name);
    assert (u + name)[|u|..] == name;
  }

  /**
    The directory given to `os.path.join` is the record's `directory`, when it
    is not empty and does not end in a separator after other characters.
   */
  lemma DirnameOfJoin(root: string, name: string)
    requires ValidName(name)
    requires AllSlashes(root) || root[|root| - 1] != Sep
    ensures Dirname(Join(root, name)) == root
  {
    var u := JoinShape(root, name);
    if root == "" {
      assert Join(root, name) == name;
      return;
    }
    RFindBeforeName(u, name);
    var p := u + name;
    assert p[..|u|] == u;
    if AllSlashes(root) {
      assert root[|root| - 1] == Sep;
    } else {
      var i :| 0 <= i < |root| && root[i] != Sep;
      assert u[i] == root[i];
      assert RStripSlashes(u) == RStripSlashes(root);
    }
  }
}

/** Ruby's POSIX path-string operations as the sync code uses them:
    `File.join` of two strings and `File.dirname`. Paths are plain strings;
    only '/' is a separator and nothing is normalised beyond what Ruby does. */
module RubyPath {
  import opened Wrappers

  predicate StartsWithSep(s: string) {
    |s| > 0 && s[0] == '/'
  }

  predicate EndsWithSep(s: string) {
    |s| > 0 && s[|s| - 1] == '/'
  }

  /** A path the remote side resolves from its filesystem root. */
  predicate Absolute(p: string) {
    StartsWithSep(p)
  }

  /** A single path component: non-empty and free of separators. */
  predicate Component(c: string) {
    |c| > 0 && forall i :: 0 <= i < |c| ==> c[i] != '/'
  }

  /** An absolute path with no empty component and no trailing separator
      (or the root itself): the form `File.dirname` gives back unchanged. */
  predicate Canonical(d: string) {
    d == "/" ||
    (Absolute(d) && !EndsWithSep(d) &&
     forall i :: 0 <= i < |d| - 1 ==> d[i] == '/' ==> d[i + 1] != '/')
  }

  /** `s` without its run of trailing separators. */
  function StripTrailingSeps(s: string): (r: string)
    ensures r <= s && !EndsWithSep(r)
    ensures forall i :: |r| <= i < |s| ==> s[i] == '/'
    ensures !EndsWithSep(s) ==> r == s
    decreases |s|
  {
    if EndsWithSep(s) then StripTrailingSeps(s[..|s| - 1]) else s
  }

  /** Ruby's `File.join(a, b)`: when `b` starts with a separator the trailing
      separators of `a` are dropped; otherwise one '/' is inserted unless `a`
      already ends with one. */
  function Join(a: string, b: string): string
  {
    if StartsWithSep(b) then StripTrailingSeps(a) + b
    else if EndsWithSep(a) then a + b
    else a + "/" + b
  }

  /** A joined path starts with the first argument (trailing separators
      aside), followed by a separator, and ends with the second argument
      verbatim: `File.join(prefix, p)` never leaves `prefix`. */
  lemma JoinUnderPrefix(a: string, b: string)
    ensures var s := StripTrailingSeps(a); var j := Join(a, b);
      && |s| < |j|
      && j[..|s|] == s
      && j[|s|] == '/'
      && |b| <= |j| && j[|j| - |b|..] == b
  {
    var s := StripTrailingSeps(a);
    var j := Join(a, b);
    if StartsWithSep(b) {
      assert j == s + b;
    } else if EndsWithSep(a) {
      assert j == a + b;
      assert a[|s|] == '/';
      assert j[..|s|] == a[..|s|];
    } else {
      assert j == a + "/" + b;
    }
  }

  /** Joining onto an absolute (or empty) prefix gives an absolute path. */
  lemma JoinAbsolute(a: string, b: string)
    ensures a == "" || Absolute(a) ==> Absolute(Join(a, b))
  {
    if (a == "" || Absolute(a)) && StartsWithSep(b) {
      var s := StripTrailingSeps(a);
      if |s| > 0 {
        assert s[0] == a[0];
      }
      assert Join(a, b)[0] == (s + b)[0];
    }
  }

  /** `File.join` reads only the first character of its second argument, so
      text appended to a non-empty second argument passes straight through. */
  lemma JoinAppend(a: string, b: string, t: string)
    requires |b| > 0
    ensures Join(a, b + t) == Join(a, b) + t
  {
    assert (b + t)[0] == b[0];
    assert StartsWithSep(b + t) == StartsWithSep(b);
    if StartsWithSep(b) {
      var s := StripTrailingSeps(a);
      assert s + (b + t) == (s + b) + t;
    } else if EndsWithSep(a) {
      assert a + (b + t) == (a + b) + t;
    } else {
      assert a + "/" + (b + t) == (a + "/" + b) + t;
    }
  }

  /** Joining a component onto a canonical directory stays canonical. */
  lemma JoinCanonical(d: string, c: string)
    requires Canonical(d) && Component(c)
    ensures Canonical(Join(d, c))
  {
    var j := Join(d, c);
    if d == "/" {
      assert j == "/" + c;
    } else {
      assert j == d + "/" + c;
      forall i | 0 <= i < |j| - 1 && j[i] == '/'
        ensures j[i + 1] != '/'
      {
        if i < |d| {
          assert j[i] == d[i];
          if i + 1 < |d| {
            assert j[i + 1] == d[i + 1];
          }
        } else {
          assert j[i + 1] == c[i - |d|];
        }
      }
    }
  }

  /** The number of leading separators of `s`. */
  function LeadingSeps(s: string): (k: nat)
    ensures k <= |s|
    decreases |s|
  {
    if StartsWithSep(s) then LeadingSeps(s[1..]) + 1 else 0
  }

  /** `LeadingSeps` counts exactly the separators before the first other
      character. */
  lemma {:induction false} LeadingSepsSpec(s: string)
    ensures var k := LeadingSeps(s);
      && (forall i :: 0 <= i < k ==> s[i] == '/')
      && (k < |s| ==> s[k] != '/')
    decreases |s|
  {
    if StartsWithSep(s) {
      LeadingSepsSpec(s[1..]);
      var k' := LeadingSeps(s[1..]);
      assert forall i :: 1 <= i < k' + 1 ==> s[i] == s[1..][i - 1];
    }
  }

  /** The index of the last separator in `s[lo..hi]`, if any. */
  function LastSepIn(s: string, lo: nat, hi: nat): (r: Option<nat>)
    requires hi <= |s|
    ensures r.Some? ==> lo <= r.value < hi && s[r.value] == '/'
    decreases hi
  {
    if hi <= lo then None
    else if s[hi - 1] == '/' then Some(hi - 1)
    else LastSepIn(s, lo, hi - 1)
  }

  /** `LastSepIn` finds a separator with none after it, or reports that
      there is none. */
  lemma {:induction false} LastSepInSpec(s: string, lo: nat, hi: nat)
    requires hi <= |s|
    ensures var r := LastSepIn(s, lo, hi);
      && (r.Some? ==> forall i :: r.value < i < hi ==> s[i] != '/')
      && (r.None? ==> forall i :: lo <= i < hi ==> s[i] != '/')
    decreases hi
  {
    if hi > lo && s[hi - 1] != '/' {
      LastSepInSpec(s, lo, hi - 1);
    }
  }

  /** The start of the run of separators that ends at `j`, not below `lo`. */
  function SepRunStart(s: string, lo: nat, j: nat): (r: nat)
    requires lo <= j < |s| && s[j] == '/'
    ensures lo <= r <= j
    decreases j
  {
    if j > lo && s[j - 1] == '/' then SepRunStart(s, lo, j - 1) else j
  }

  /** `SepRunStart` stops at `lo` or just after a non-separator, and every
      character from it to `j` is a separator. */
  lemma {:induction false} SepRunStartSpec(s: string, lo: nat, j: nat)
    requires lo <= j < |s| && s[j] == '/'
    ensures var r := SepRunStart(s, lo, j);
      && (forall i :: r <= i <= j ==> s[i] == '/')
      && (r == lo || s[r - 1] != '/')
    decreases j
  {
    if j > lo && s[j - 1] == '/' {
      SepRunStartSpec(s, lo, j - 1);
    }
  }

  /** Ruby's `File.dirname(s)` on POSIX: several leading separators collapse
      to one; the result ends before the last run of separators that is
      followed by a non-separator; a path without such a run has dirname "/"
      if it is absolute and "." otherwise. */
  function Dirname(s: string): string
  {
    var k := LeadingSeps(s);
    var start := if k > 1 then k - 1 else 0;
    var e := |StripTrailingSeps(s)|;
    var p := match LastSepIn(s, k, e) {
      case None => k
      case Some(j) => SepRunStart(s, k, j)
    };
    if p == start then "." else s[start..p]
  }

  /** The parent of an absolute path other than "/" is absolute and strictly
      shorter, so walking up with `Dirname` always reaches "/". */
  lemma DirnameOfAbsolute(s: string)
    requires Absolute(s) && s != "/"
    ensures Absolute(Dirname(s)) && |Dirname(s)| < |s|
  {
    var k := LeadingSeps(s);
    var start := if k > 1 then k - 1 else 0;
    LeadingSepsSpec(s);
    assert s[start] == '/';
  }

  /** `File.dirname` undoes `File.join` of a component onto a canonical
      directory. */
  lemma DirnameOfJoin(d: string, c: string)
    requires Canonical(d) && Component(c)
    ensures Dirname(Join(d, c)) == d
  {
    var s := Join(d, c);
    if d == "/" {
      assert s == "/" + c;
      LeadingSepsSpec(s);
      assert LeadingSeps(s) == 1;
      assert StripTrailingSeps(s) == s;
      LastSepInSpec(s, 1, |s|);
      assert LastSepIn(s, 1, |s|).None?;
      assert s[0..1] == "/";
    } else {
      assert s == d + "/" + c;
      assert s[1] == d[1];
      LeadingSepsSpec(s);
      assert LeadingSeps(s) == 1;
      assert s[|s| - 1] == c[|c| - 1];
      assert StripTrailingSeps(s) == s;
      var j := LastSepIn(s, 1, |s|);
      LastSepInSpec(s, 1, |s|);
      assert s[|d|] == '/';
      assert forall i :: |d| < i < |s| ==> s[i] == c[i - |d| - 1];
      assert j == Some(|d|);
      assert s[|d| - 1] == d[|d| - 1];
      assert SepRunStart(s, 1, |d|) == |d|;
      assert s[0..|d|] == d;
    }
  }

  /** The ancestors `File.dirname` walks through from `p` up to (excluding)
      "/", deepest first. */
  function Ancestors(p: string): seq<string>
    requires Absolute(p)
    decreases |p|
  {
    if p == "/" then []
    else
      DirnameOfAbsolute(p);
      [p] + Ancestors(Dirname(p))
  }

  /** One step of the walk: the ancestors of `p` are `p` and those of its
      parent. */
  lemma AncestorsStep(p: string)
    requires Absolute(p) && p != "/"
    ensures Absolute(Dirname(p)) && |Dirname(p)| < |p|
    ensures Ancestors(p) == [p] + Ancestors(Dirname(p))
  {
    DirnameOfAbsolute(p);
  }

  /** The walk starts at `p` and never reaches "/": every path on it is
      absolute and not the root. */
  lemma {:induction false} AncestorsShape(p: string)
    requires Absolute(p)
    ensures var a := Ancestors(p);
      && (forall i :: 0 <= i < |a| ==> Absolute(a[i]) && a[i] != "/")
      && (p == "/" <==> a == [])
      && (p != "/" ==> a[0] == p)
    decreases |p|
  {
    if p != "/" {
      AncestorsStep(p);
      AncestorsShape(Dirname(p));
    }
  }

  /** The walk steps from each path to its parent and stops at a child of
      "/". */
  lemma {:induction false} AncestorsLinked(p: string)
    requires Absolute(p)
    ensures var a := Ancestors(p);
      && (forall i :: 0 <= i < |a| - 1 ==> a[i + 1] == Dirname(a[i]))
      && (|a| > 0 ==> Dirname(a[|a| - 1]) == "/")
    decreases |p|
  {
    if p != "/" {
      AncestorsStep(p);
      var q := Dirname(p);
      AncestorsLinked(q);
      AncestorsShape(q);
      var a := Ancestors(p);
      var b := Ancestors(q);
      forall i | 0 <= i < |a| - 1
        ensures a[i + 1] == Dirname(a[i])
      {
        if i > 0 {
          assert a[i] == b[i - 1] && a[i + 1] == b[i];
        }
      }
    }
  }
}

/**
 * The two `path` helpers the controller relies on, over POSIX separators:
 * `basename` (everything after the last '/') and `extname` (the extension
 * of the basename, following Node's rules for leading dots and "..").
 */
module Paths {

  /** Index of the last occurrence of `c` in `s`, or -1 when there is none. */
  function LastIndexOf(s: string, c: char): (r: int)
    ensures -1 <= r < |s|
    ensures r == -1 <==> c !in s
    ensures r >= 0 ==> s[r] == c
    ensures forall k | r < k < |s| :: s[k] != c
  {
    if |s| == 0 then -1
    else if s[|s| - 1] == c then |s| - 1
    else LastIndexOf(s[..|s| - 1], c)
  }

  /** `path.basename`: the final component of `p`, with no directory part. */
  function Basename(p: string): (r: string)
    ensures '/' !in r
    ensures |r| <= |p| && r == p[|p| - |r|..]
    ensures '/' !in p ==> r == p
    ensures |r| < |p| ==> p[|p| - |r| - 1] == '/'
  {
    p[LastIndexOf(p, '/') + 1..]
  }

  /**
   * `path.extname`: from the last '.' of the basename to its end; empty
   * when the basename has no '.', when its only candidate dot is its first
   * character (".profile"), or when the basename is "..".
   */
  function Extname(p: string): string
  {
    ExtensionOf(Basename(p))
  }

  /** The extension part of a single path component `b`. */
  function ExtensionOf(b: string): string
  {
    var d := LastIndexOf(b, '.');
    if d <= 0 || b == ".." then "" else b[d..]
  }

  /**
   * The extension of a component is empty exactly when the component has no
   * '.' after its first character or is ".."; otherwise it is the tail of the
   * component that starts at its last '.'.
   */
  lemma ExtensionOfRules(b: string)
    ensures ExtensionOf(b) != "" <==> b != ".." && exists k | 0 < k < |b| :: b[k] == '.'
    ensures var r := ExtensionOf(b);
      r != "" ==> |r| < |b| && r == b[|b| - |r|..] && r[0] == '.' && forall k | 1 <= k < |r| :: r[k] != '.'
  {
    var d := LastIndexOf(b, '.');
    if d <= 0 {
      assert forall k | 0 < k < |b| :: b[k] != '.';
    } else if b != ".." {
      var e := b[d..];
      assert forall k | 1 <= k < |e| :: e[k] == b[d + k];
    }
  }

  /** `path.extname`'s rules, stated of the basename of `p`. */
  lemma {:induction false} ExtnameRules(p: string)
    ensures var b := Basename(p); var r := Extname(p);
      && (r != "" <==> b != ".." && exists k | 0 < k < |b| :: b[k] == '.')
      && (r != "" ==> |r| < |b| && r == b[|b| - |r|..] && r[0] == '.' && forall k | 1 <= k < |r| :: r[k] != '.')
  {
    ExtensionOfRules(Basename(p));
  }

  /** The shape of every extension Extname returns: empty, or one dot followed by no dot or slash. */
  predicate IsExtension(e: string)
  {
    && '/' !in e
    && (|e| > 0 ==> e[0] == '.' && forall k | 1 <= k < |e| :: e[k] != '.')
  }

  lemma SuffixOfSuffix(p: string, b: string, e: string)
    requires |b| <= |p| && b == p[|p| - |b|..]
    requires |e| <= |b| && e == b[|b| - |e|..]
    ensures e == p[|p| - |e|..]
  {
    forall k | 0 <= k < |e|
      ensures p[|p| - |e|..][k] == e[k]
    {
      assert p[|p| - |e|..][k] == p[|p| - |e| + k];
      assert e[k] == b[|b| - |e| + k];
      assert b[|b| - |e| + k] == p[|p| - |b| + |b| - |e| + k];
    }
  }

  /** The extension of a component is a dot-led tail of it. */
  lemma ExtensionOfShape(b: string)
    requires '/' !in b
    ensures IsExtension(ExtensionOf(b))
    ensures |ExtensionOf(b)| <= |b| && ExtensionOf(b) == b[|b| - |ExtensionOf(b)|..]
  {
    var e := ExtensionOf(b);
    ExtensionOfRules(b);
    forall k | 0 <= k < |e|
      ensures e[k] != '/'
    {
      assert e[k] == b[|b| - |e| + k];
    }
  }

  /** Extname yields an extension taken from the end of the path. */
  lemma {:induction false} ExtnameShape(p: string)
    ensures IsExtension(Extname(p))
    ensures |Extname(p)| <= |p| && Extname(p) == p[|p| - |Extname(p)|..]
  {
    var b := Basename(p);
    var e := ExtensionOf(b);
    ExtensionOfShape(b);
    SuffixOfSuffix(p, b, e);
  }

  /** A file stored as `dir/name` with a plain `name` has basename `name`. */
  lemma {:induction false} BasenameOfJoin(dir: string, name: string)
    requires '/' !in name
    ensures Basename(dir + "/" + name) == name
  {
    var p := dir + "/" + name;
    var i := LastIndexOf(p, '/');
    assert p[|dir|] == '/';
    assert i == |dir| by {
      forall k | |dir| < k < |p|
        ensures p[k] != '/'
      {
        assert p[k] == name[k - |dir| - 1];
      }
    }
    assert p[i + 1..] == name;
  }

  /**
   * Appending an extension to a stem that contains no '.' and no '/' leaves
   * that extension as the Extname of the whole: what the upload naming rule
   * relies on to keep the original file's extension.
   */
  lemma {:induction false} ExtnameOfSuffix(stem: string, e: string)
    requires |stem| > 0 && '.' !in stem && '/' !in stem
    requires IsExtension(e)
    ensures Extname(stem + e) == e
  {
    var p := stem + e;
    assert '/' !in p by {
      forall k | 0 <= k < |p| ensures p[k] != '/' {
        if k >= |stem| { assert p[k] == e[k - |stem|]; }
      }
    }
    assert Basename(p) == p;
    var d := LastIndexOf(p, '.');
    if e == [] {
      assert p == stem;
      assert d == -1;
    } else {
      assert p[|stem|] == '.';
      assert d == |stem| by {
        forall k | |stem| < k < |p|
          ensures p[k] != '.'
        {
          assert p[k] == e[k - |stem|];
        }
      }
      assert p[0] == stem[0];
      assert p[d..] == e;
    }
  }
}

/**
 * Classification of module identifiers done by the dev-server crawler:
 * stripping the query suffix (`STRIP_QUERY_PARAMS_REGEX`), Node's
 * `path.extname`, and the `?astroPropagatedAssets` barrier test.
 */
module ModuleIds {

  /** ECMAScript line terminators: the characters a regex `.` never matches. */
  predicate IsLineTerminator(c: char) {
    c == '\n' || c == '\r' || c == '\U{2028}' || c == '\U{2029}'
  }

  predicate NoLineTerminator(s: string) {
    forall i :: 0 <= i < |s| ==> !IsLineTerminator(s[i])
  }

  /** The pattern `\?.*$` (no flags) matches `s` starting at index `i`. */
  predicate QueryStartsAt(s: string, i: int)
    requires 0 <= i < |s|
  {
    s[i] == '?' && NoLineTerminator(s[i + 1..])
  }

  /** Index of the leftmost match of `\?.*$` at or after `i`, or `|s|` when there is none. */
  function FirstQueryFrom(s: string, i: nat): (k: nat)
    requires i <= |s|
    ensures i <= k <= |s|
    ensures k < |s| ==> QueryStartsAt(s, k)
    ensures forall j :: i <= j < k ==> !QueryStartsAt(s, j)
    decreases |s| - i
  {
    if i == |s| || QueryStartsAt(s, i) then i else FirstQueryFrom(s, i + 1)
  }

  /**
   * `id.replace(/\?.*$/, '')`: the first match is removed. It starts at a `?`
   * followed by no line terminator up to the end of the string.
   */
  function StripQuery(s: string): (r: string)
    ensures |r| <= |s| && r == s[..|r|]
    ensures |r| < |s| ==> QueryStartsAt(s, |r|)
    ensures forall j :: 0 <= j < |r| ==> !QueryStartsAt(s, j)
  {
    s[..FirstQueryFrom(s, 0)]
  }

  /** An identifier without a `?` is left as it is. */
  lemma StripQueryNoMark(s: string)
    requires forall i :: 0 <= i < |s| ==> s[i] != '?'
    ensures StripQuery(s) == s
  {
  }

  /** `pat` occurs in `s` starting at index `i`. */
  predicate OccursAt(s: string, pat: string, i: int)
    requires 0 <= i && i + |pat| <= |s|
  {
    s[i..i + |pat|] == pat
  }

  /** Substring search: the regex test for a literal pattern. */
  function Contains(s: string, pat: string): (b: bool)
    ensures b <==> exists i :: 0 <= i && i + |pat| <= |s| && OccursAt(s, pat, i)
    decreases |s|
  {
    if |s| < |pat| then false
    else if s[..|pat|] == pat then
      assert OccursAt(s, pat, 0);
      true
    else
      var b := Contains(s[1..], pat);
      assert b ==> exists i :: 0 <= i && i + |pat| <= |s| && OccursAt(s, pat, i) by {
        if b {
          var i :| 0 <= i && i + |pat| <= |s[1..]| && OccursAt(s[1..], pat, i);
          OccursInTail(s, pat, i);
        }
      }
      assert (exists i :: 0 <= i && i + |pat| <= |s| && OccursAt(s, pat, i)) ==> b by {
        if exists i :: 0 <= i && i + |pat| <= |s| && OccursAt(s, pat, i) {
          var i :| 0 <= i && i + |pat| <= |s| && OccursAt(s, pat, i);
          assert i != 0;
          OccursInTail(s, pat, i - 1);
        }
      }
      b
  }

  /** An occurrence in the tail of `s` is an occurrence in `s`, one position later. */
  lemma OccursInTail(s: string, pat: string, i: int)
    requires 0 <= i && i + 1 + |pat| <= |s|
    ensures OccursAt(s[1..], pat, i) <==> OccursAt(s, pat, i + 1)
  {
    assert s[1..][i..i + |pat|] == s[i + 1..i + 1 + |pat|];
  }

  /** The query marker of a propagation barrier. */
  const PropagatedAssetsMarker: string := "?astroPropagatedAssets"

  /** `ASTRO_PROPAGATED_ASSET_REGEX.test(id)`. */
  predicate IsPropagationBarrier(id: string): (b: bool)
    ensures b <==> exists i :: 0 <= i && i + 22 <= |id| && OccursAt(id, "?astroPropagatedAssets", i)
    ensures b ==> |id| >= 22
  {
    assert |PropagatedAssetsMarker| == 22;
    Contains(id, PropagatedAssetsMarker)
  }

  /** `p` with every trailing `/` removed. */
  function TrimTrailingSlashes(p: string): (t: string)
    ensures |t| <= |p| && t == p[..|t|]
    ensures t == [] || t[|t| - 1] != '/'
    ensures forall i :: |t| <= i < |p| ==> p[i] == '/'
  {
    if p != [] && p[|p| - 1] == '/' then TrimTrailingSlashes(p[..|p| - 1]) else p
  }

  /** The part of `t` after its last `/`. */
  function LastSegment(t: string): (seg: string)
    ensures |seg| <= |t| && seg == t[|t| - |seg|..]
    ensures forall i :: 0 <= i < |seg| ==> seg[i] != '/'
    ensures |seg| < |t| ==> t[|t| - |seg| - 1] == '/'
  {
    if t == [] || t[|t| - 1] == '/' then []
    else
      var seg := LastSegment(t[..|t| - 1]) + [t[|t| - 1]];
      seg
  }

  /** Index of the last `c` in `s`, or -1. */
  function LastIndexOf(s: string, c: char): (k: int)
    ensures -1 <= k < |s|
    ensures k >= 0 ==> s[k] == c
    ensures forall j :: k < j < |s| ==> s[j] != c
  {
    if s == [] then -1
    else if s[|s| - 1] == c then |s| - 1
    else LastIndexOf(s[..|s| - 1], c)
  }

  /**
   * Node's POSIX `path.extname`: the final segment (trailing slashes ignored)
   * from its last dot on. It is empty when the segment has no dot, when the
   * only dot is its first character, and for the segment "..".
   */
  function ExtName(p: string): (ext: string)
    ensures ext == [] || ext[0] == '.'
    ensures forall i :: 0 < i < |ext| ==> ext[i] != '.' && ext[i] != '/'
    ensures |ext| <= |p|
  {
    var seg := LastSegment(TrimTrailingSlashes(p));
    var d := LastIndexOf(seg, '.');
    if d <= 0 || seg == ".." then [] else seg[d..]
  }

  /** The last segment of `a + "/" + seg` is `seg` when `seg` holds no slash. */
  lemma {:induction false} LastSegmentAfterSlash(a: string, seg: string)
    requires NoSlash(seg)
    ensures LastSegment(a + "/" + seg) == seg
    decreases |seg|
  {
    var t := a + "/" + seg;
    if seg == [] {
      assert t[|t| - 1] == '/';
    } else {
      var init := seg[..|seg| - 1];
      assert t[..|t| - 1] == a + "/" + init;
      LastSegmentAfterSlash(a, init);
      assert init + [seg[|seg| - 1]] == seg;
    }
  }

  /** A string without a slash is its own last segment. */
  lemma {:induction false} LastSegmentNoSlash(seg: string)
    requires NoSlash(seg)
    ensures LastSegment(seg) == seg
    decreases |seg|
  {
    if seg != [] {
      var init := seg[..|seg| - 1];
      LastSegmentNoSlash(init);
      assert init + [seg[|seg| - 1]] == seg;
    }
  }

  /** The last `c` of `x + [c] + y` sits at `|x|` when `y` holds no `c`. */
  lemma {:induction false} LastIndexOfSplit(x: string, c: char, y: string)
    requires forall i :: 0 <= i < |y| ==> y[i] != c
    ensures LastIndexOf(x + [c] + y, c) == |x|
    decreases |y|
  {
    var s := x + [c] + y;
    if y != [] {
      var init := y[..|y| - 1];
      assert s[..|s| - 1] == x + [c] + init;
      LastIndexOfSplit(x, c, init);
    } else {
      assert s[|s| - 1] == c;
    }
  }

  predicate NoSlash(s: string) {
    forall i :: 0 <= i < |s| ==> s[i] != '/'
  }

  predicate NoDot(s: string) {
    forall i :: 0 <= i < |s| ==> s[i] != '.'
  }

  /** Trailing slashes do not change the extension: `extname("a.md/") == extname("a.md")`. */
  lemma ExtNameIgnoresTrailingSlash(p: string)
    ensures ExtName(p + "/") == ExtName(p)
  {
    var q := p + "/";
    assert q[..|q| - 1] == p;
  }

  /** Only the last segment matters: `extname("dir/seg") == extname("seg")`. */
  lemma ExtNameAfterDirectory(dir: string, seg: string)
    requires seg != [] && NoSlash(seg)
    ensures ExtName(dir + "/" + seg) == ExtName(seg)
  {
    var p := dir + "/" + seg;
    assert p[|p| - 1] == seg[|seg| - 1];
    LastSegmentAfterSlash(dir, seg);
    LastSegmentNoSlash(seg);
  }

  /** A segment `stem.ext` whose stem is not empty has the extension `.ext`. */
  lemma ExtNameOfNamedFile(stem: string, ext: string)
    requires stem != [] && NoSlash(stem) && NoSlash(ext) && NoDot(ext)
    requires !(stem == "." && ext == [])
    ensures ExtName(stem + ['.'] + ext) == ['.'] + ext
  {
    var seg := stem + ['.'] + ext;
    assert seg[|seg| - 1] != '/';
    assert NoSlash(seg) by {
      forall i | 0 <= i < |seg| ensures seg[i] != '/' {
        if i > |stem| {
          assert seg[i] == ext[i - |stem| - 1];
        }
      }
    }
    LastSegmentNoSlash(seg);
    LastIndexOfSplit(stem, '.', ext);
    assert seg != ".." by {
      if |seg| == 2 {
        assert |stem| == 1 && ext == [];
        assert seg == stem + ['.'];
      }
    }
    assert seg[|stem|..] == ['.'] + ext;
  }

  /** A dot file such as `.md` has no extension. */
  lemma ExtNameOfDotFile(name: string)
    requires NoSlash(name) && NoDot(name)
    ensures ExtName(['.'] + name) == ""
  {
    var seg := ['.'] + name;
    assert seg[|seg| - 1] != '/';
    assert NoSlash(seg) by {
      forall i | 0 <= i < |seg| ensures seg[i] != '/' {
        if i > 0 {
          assert seg[i] == name[i - 1];
        }
      }
    }
    assert TrimTrailingSlashes(seg) == seg;
    assert LastSegment(seg) == seg by {
      LastSegmentNoSlash(seg);
    }
    assert LastIndexOf(seg, '.') == 0 by {
      LastIndexOfSplit([], '.', name);
      assert [] + ['.'] + name == seg;
    }
  }

  /** A segment without a dot has no extension. */
  lemma ExtNameWithoutDot(seg: string)
    requires NoSlash(seg) && NoDot(seg)
    ensures ExtName(seg) == ""
  {
    if seg != [] {
      assert seg[|seg| - 1] != '/';
    }
    LastSegmentNoSlash(seg);
  }
}

/** String functions the controllers and the file list rely on: ASCII
    lower-casing (`ToLower` / `toLowerCase`), the .NET `Path.GetExtension`, the
    JavaScript idiom `name.split('.').pop()`, and substring tests. */
module Text {

  /** Lower-cases an ASCII capital letter; every other character is unchanged. */
  function LowerChar(c: char): (d: char)
    ensures 'A' <= c <= 'Z' ==> 'a' <= d <= 'z' && d as int - c as int == 32
    ensures !('A' <= c <= 'Z') ==> d == c
  {
    if 'A' <= c <= 'Z' then (c as int + 32) as char else c
  }

  /** The string with every ASCII capital lower-cased. */
  function Lower(s: string): (r: string)
    ensures |r| == |s|
    ensures forall i :: 0 <= i < |s| ==> r[i] == LowerChar(s[i])
  {
    seq(|s|, i requires 0 <= i < |s| => LowerChar(s[i]))
  }

  /** Lower-casing works character by character, so it distributes over
      concatenation and leaves '.' and '/' where they were. */
  lemma LowerConcat(a: string, b: string)
    ensures Lower(a + b) == Lower(a) + Lower(b)
  {
  }

  /** `a` is a suffix of `s`. */
  predicate IsSuffix(a: string, s: string) {
    |a| <= |s| && s[|s| - |a|..] == a
  }

  predicate StartsWith(s: string, prefix: string) {
    |prefix| <= |s| && s[..|prefix|] == prefix
  }

  predicate EndsWith(s: string, suffix: string) {
    IsSuffix(suffix, s)
  }

  /** `pat` occurs in `s` starting at index `i`. */
  predicate OccursAt(s: string, pat: string, i: int) {
    0 <= i && i + |pat| <= |s| && s[i..i + |pat|] == pat
  }

  /** JavaScript's `s.includes(pat)`, by scanning left to right. */
  function Contains(s: string, pat: string): (b: bool)
    ensures b <==> exists i :: OccursAt(s, pat, i)
    decreases |s|
  {
    if |s| < |pat| then
      assert forall i :: !OccursAt(s, pat, i);
      false
    else if s[..|pat|] == pat then
      assert OccursAt(s, pat, 0);
      true
    else
      var b := Contains(s[1..], pat);
      assert forall i :: OccursAt(s[1..], pat, i) <==> OccursAt(s, pat, i + 1) by {
        forall i ensures OccursAt(s[1..], pat, i) <==> OccursAt(s, pat, i + 1) {
          if 0 <= i && i + |pat| <= |s| - 1 {
            assert s[1..][i..i + |pat|] == s[i + 1..i + 1 + |pat|];
          }
        }
      }
      assert !OccursAt(s, pat, 0);
      assert (exists i :: OccursAt(s, pat, i)) ==> exists i :: OccursAt(s[1..], pat, i) by {
        if exists i :: OccursAt(s, pat, i) {
          var i :| OccursAt(s, pat, i);
          assert OccursAt(s[1..], pat, i - 1);
        }
      }
      b
  }

  /** The shape of a non-empty `Path.GetExtension` result: a '.', then at
      least one character, none of them a '.' or a directory separator. */
  predicate IsExtension(e: string) {
    |e| >= 2 && e[0] == '.' && forall j :: 1 <= j < |e| ==> e[j] != '.' && e[j] != '/'
  }

  /** The scan `Path.GetExtension` performs from the end of `path`, with
      `path[i..]` already passed over. */
  function ExtensionFrom(path: string, i: nat): (ext: string)
    requires i <= |path|
    requires forall j :: i <= j < |path| ==> path[j] != '.' && path[j] != '/'
    ensures ext == "" || (IsExtension(ext) && IsSuffix(ext, path))
    ensures ext == "" ==> forall k :: 0 <= k < |path| ==> !IsExtension(path[k..])
    decreases i
  {
    if i == 0 then
      assert forall k :: 0 <= k < |path| ==> path[k..][0] == path[k];
      ""
    else if path[i - 1] == '.' then
      if i != |path| then
        assert forall j :: i <= j < |path| ==> path[i - 1..][j - i + 1] == path[j];
        path[i - 1..]
      else
        assert forall k :: 0 <= k < |path| ==> !IsExtension(path[k..]) by {
          forall k | 0 <= k < |path| ensures !IsExtension(path[k..]) {
            if k < |path| - 1 {
              assert path[k..][|path| - 1 - k] == '.';
            }
          }
        }
        ""
    else if path[i - 1] == '/' then
      assert forall k :: 0 <= k < |path| ==> !IsExtension(path[k..]) by {
        forall k | 0 <= k < |path| ensures !IsExtension(path[k..]) {
          if k < i - 1 {
            assert path[k..][i - 1 - k] == '/';
          } else {
            assert path[k..][0] == path[k];
          }
        }
      }
      ""
    else
      ExtensionFrom(path, i - 1)
  }

  /** The .NET `Path.GetExtension(path)`: the suffix from the last '.', provided
      that '.' is not the final character and no directory separator follows
      it; the empty string otherwise. */
  function GetExtension(path: string): (ext: string)
    ensures ext == "" || (IsExtension(ext) && IsSuffix(ext, path))
    ensures ext == "" ==> forall k :: 0 <= k < |path| ==> !IsExtension(path[k..])
  {
    ExtensionFrom(path, |path|)
  }

  /** A path has at most one suffix of extension shape. */
  lemma ExtensionSuffixUnique(path: string, e: string, f: string)
    requires IsExtension(e) && IsSuffix(e, path)
    requires IsExtension(f) && IsSuffix(f, path)
    ensures e == f
  {
  }

  /** `GetExtension` returns exactly the extension-shaped suffix, whenever
      there is one. */
  lemma GetExtensionOfSuffix(path: string, e: string)
    requires IsExtension(e) && IsSuffix(e, path)
    ensures GetExtension(path) == e
  {
  }

  /** The scan behind `LastSegment`, with `s[i..]` already passed over and
      found free of '.'. */
  function SegmentFrom(s: string, i: nat): (seg: string)
    requires i <= |s|
    requires forall j :: i <= j < |s| ==> s[j] != '.'
    ensures IsSuffix(seg, s)
    ensures forall j :: 0 <= j < |seg| ==> seg[j] != '.'
    ensures |seg| < |s| ==> s[|s| - |seg| - 1] == '.'
    decreases i
  {
    if i == 0 then s
    else if s[i - 1] == '.' then s[i..]
    else SegmentFrom(s, i - 1)
  }

  /** JavaScript's `s.split('.').pop()`: the text after the last '.', or all of
      `s` when it has no '.'. */
  function LastSegment(s: string): (seg: string)
    ensures IsSuffix(seg, s)
    ensures forall j :: 0 <= j < |seg| ==> seg[j] != '.'
    ensures |seg| < |s| ==> s[|s| - |seg| - 1] == '.'
  {
    SegmentFrom(s, |s|)
  }

  /** The segment after the last '.' of `prefix + "." + tail`, when `tail`
      holds no '.', is `tail`. */
  lemma LastSegmentAfterDot(prefix: string, tail: string)
    requires forall j :: 0 <= j < |tail| ==> tail[j] != '.'
    ensures LastSegment(prefix + "." + tail) == tail
  {
    var s := prefix + "." + tail;
    var seg := LastSegment(s);
    assert s[|s| - |tail| - 1] == '.';
    assert s[|s| - |tail|..] == tail;
  }

  /** Lower-casing neither creates nor removes a '.'. */
  lemma LowerKeepsDots(s: string)
    ensures forall j :: 0 <= j < |s| ==> (Lower(s)[j] == '.' <==> s[j] == '.')
  {
  }

  /** A string without a '.' is its own last segment. */
  lemma LastSegmentWithoutDot(s: string)
    requires forall j :: 0 <= j < |s| ==> s[j] != '.'
    ensures LastSegment(s) == s
  {
  }

  /** An extension-shaped suffix, lower-cased and without its '.', is the
      last segment of the lower-cased path. */
  lemma LastSegmentOfSuffix(path: string, e: string)
    requires IsExtension(e) && IsSuffix(e, path)
    ensures var le := Lower(e);
            |le| >= 2 && le[0] == '.' && LastSegment(Lower(path)) == le[1..]
  {
    var prefix := path[..|path| - |e|];
    var tail := e[1..];
    assert e == "." + tail;
    assert path == prefix + ("." + tail);
    LowerConcat(prefix, "." + tail);
    LowerConcat(".", tail);
    LowerKeepsDots(tail);
    assert Lower(path) == Lower(prefix) + "." + Lower(tail);
    LastSegmentAfterDot(Lower(prefix), Lower(tail));
  }

  /** The extension `GetExtension` finds is, lower-cased and without its '.',
      the last segment of the lower-cased path. */
  lemma LastSegmentOfExtension(path: string)
    requires GetExtension(path) != ""
    ensures var e := Lower(GetExtension(path));
            |e| >= 2 && e[0] == '.' && LastSegment(Lower(path)) == e[1..]
  {
    LastSegmentOfSuffix(path, GetExtension(path));
  }

  /** For a '.'-free `seg`, `s` ends in "." followed by `seg` exactly when `s`
      holds a '.' and `seg` is its last segment. */
  lemma EndsWithDotSegment(s: string, seg: string)
    requires forall j :: 0 <= j < |seg| ==> seg[j] != '.'
    ensures EndsWith(s, "." + seg) <==> (LastSegment(s) == seg && exists j :: 0 <= j < |s| && s[j] == '.')
  {
    if EndsWith(s, "." + seg) {
      var prefix := s[..|s| - |seg| - 1];
      assert s == prefix + "." + seg;
      LastSegmentAfterDot(prefix, seg);
      assert s[|s| - |seg| - 1] == '.';
    }
    if LastSegment(s) == seg && exists j :: 0 <= j < |s| && s[j] == '.' {
      var n := |s| - |seg|;
      assert s[n - 1..] == [s[n - 1]] + s[n..];
    }
  }

  /** `EndsWithDotSegment` for an ending written with its '.'. */
  lemma EndsWithExtension(s: string, ext: string)
    requires |ext| >= 1 && ext[0] == '.' && '.' !in ext[1..]
    ensures EndsWith(s, ext) <==> (LastSegment(s) == ext[1..] && exists j :: 0 <= j < |s| && s[j] == '.')
  {
  }
}

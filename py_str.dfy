// The parts of Python's built-in `str` that the batch executor relies on:
// `str.strip()` with no argument, and `str.replace(old, new)` with a
// non-empty `old`. Strings are sequences of code points.

module PyStr {

  /** The characters for which Python's `str.isspace()` holds. */
  predicate IsSpace(c: char) {
    || c == ' '
    || ('\t' <= c <= '\r')
    || ('\U{1C}' <= c <= '\U{1F}')
    || c == '\U{85}'
    || c == '\U{A0}'
    || c == '\U{1680}'
    || ('\U{2000}' <= c <= '\U{200A}')
    || c == '\U{2028}'
    || c == '\U{2029}'
    || c == '\U{202F}'
    || c == '\U{205F}'
    || c == '\U{3000}'
  }

  predicate AllSpace(s: string) {
    forall i :: 0 <= i < |s| ==> IsSpace(s[i])
  }

  /** Neither end of `s` is whitespace: what `strip()` leaves behind. */
  predicate IsStripped(s: string) {
    s == [] || (!IsSpace(s[0]) && !IsSpace(s[|s| - 1]))
  }

  /** `s.lstrip()`: `s` without its leading whitespace. */
  function LStrip(s: string): string {
    if s != [] && IsSpace(s[0]) then LStrip(s[1..]) else s
  }

  /** `s.rstrip()`: `s` without its trailing whitespace. */
  function RStrip(s: string): string {
    if s != [] && IsSpace(s[|s| - 1]) then RStrip(s[..|s| - 1]) else s
  }

  /** `lstrip()` removes exactly the longest all-whitespace prefix. */
  lemma {:induction false} LStripSpec(s: string)
    ensures var r := LStrip(s);
      && |r| <= |s| && r == s[|s| - |r|..]
      && AllSpace(s[..|s| - |r|])
      && (r != [] ==> !IsSpace(r[0]))
  {
    if s != [] && IsSpace(s[0]) {
      LStripSpec(s[1..]);
      var r := LStrip(s[1..]);
      assert s[..|s| - |r|] == [s[0]] + s[1..][..|s| - 1 - |r|];
    }
  }

  /** `rstrip()` removes exactly the longest all-whitespace suffix. */
  lemma {:induction false} RStripSpec(s: string)
    ensures var r := RStrip(s);
      && |r| <= |s| && r == s[..|r|]
      && AllSpace(s[|r|..])
      && (r != [] ==> !IsSpace(r[|r| - 1]))
  {
    if s != [] && IsSpace(s[|s| - 1]) {
      RStripSpec(s[..|s| - 1]);
      var r := RStrip(s[..|s| - 1]);
      assert s[|r|..] == s[..|s| - 1][|r|..] + [s[|s| - 1]];
    }
  }

  /**
   * `s.strip()`: `s` without its leading and trailing whitespace. Neither
   * end of the result is whitespace, and it is empty exactly when `s` is
   * blank.
   */
  function Strip(s: string): (r: string)
    ensures IsStripped(r)
    ensures r == [] <==> AllSpace(s)
  {
    StripBlank(s);
    RStrip(LStrip(s))
  }

  /**
   * `strip()` removes whitespace only, and only at the ends: its result is
   * the slice of `s` starting at `i` with whitespace on both sides of it.
   */
  lemma {:induction false} StripIsMiddle(s: string) returns (i: nat)
    ensures i + |Strip(s)| <= |s| && Strip(s) == s[i..i + |Strip(s)|]
    ensures AllSpace(s[..i]) && AllSpace(s[i + |Strip(s)|..])
  {
    var r := Strip(s);
    assert r == RStrip(LStrip(s));
    LStripSpec(s);
    i := |s| - |LStrip(s)|;
    StripMiddle(s);
    StripTail(s);
    assert r == s[i..i + |r|] && AllSpace(s[i + |r|..]);
  }

  /** Both strips together remove everything exactly when `s` is blank. */
  lemma StripBlank(s: string)
    ensures IsStripped(RStrip(LStrip(s)))
    ensures RStrip(LStrip(s)) == [] <==> AllSpace(s)
  {
    var l := LStrip(s);
    var r := RStrip(l);
    LStripSpec(s);
    RStripSpec(l);
    assert r != [] ==> r[0] == l[0];
    if r == [] {
      assert AllSpace(l[0..]);
      assert l[0..] == l;
      assert l == [];
      assert s[..|s|] == s;
    }
    assert l != [] ==> l[0] == s[|s| - |l|];
  }

  /** What is left after both strips is a slice of `s`. */
  lemma StripMiddle(s: string)
    ensures var i := |s| - |LStrip(s)|; var r := RStrip(LStrip(s));
      0 <= i <= |s| - |r| && r == s[i..i + |r|]
  {
    var l := LStrip(s);
    var r := RStrip(l);
    LStripSpec(s);
    RStripSpec(l);
    var i := |s| - |l|;
    assert l == s[i..];
    assert r == l[..|r|];
  }

  /** Everything after that slice is whitespace. */
  lemma StripTail(s: string)
    ensures var i := |s| - |LStrip(s)|; var r := RStrip(LStrip(s));
      0 <= i <= |s| - |r| && AllSpace(s[i + |r|..])
  {
    var l := LStrip(s);
    var r := RStrip(l);
    LStripSpec(s);
    RStripSpec(l);
    var i := |s| - |l|;
    assert s[i + |r|..] == l[|r|..];
  }

  // ---------------------------------------------------------------------
  // str.replace

  /** `pat` occurs in `s` starting at index `i`. */
  predicate OccursAt(s: string, pat: string, i: int) {
    0 <= i && i + |pat| <= |s| && s[i..i + |pat|] == pat
  }

  ghost predicate Contains(s: string, pat: string) {
    exists i :: OccursAt(s, pat, i)
  }

  /**
   * `s.replace(target, replacement)`: scan `s` from the left and replace
   * each occurrence of `target` that does not overlap an earlier replaced
   * one. `target` is never empty here.
   */
  function Replace(s: string, target: string, replacement: string): string
    requires target != []
    decreases |s|
  {
    if |s| < |target| then s
    else if s[..|target|] == target then
      replacement + Replace(s[|target|..], target, replacement)
    else
      [s[0]] + Replace(s[1..], target, replacement)
  }

  /**
   * `s.split(sep)`: the pieces of `s` between the occurrences of `sep`
   * found by the same left-to-right scan as `Replace`. The first piece is
   * the part of `s` before the first occurrence.
   */
  function Split(s: string, sep: string): (parts: seq<string>)
    requires sep != []
    ensures |parts| >= 1
    ensures |parts[0]| <= |s| && parts[0] == s[..|parts[0]|]
    decreases |s|
  {
    if |s| < |sep| then [s]
    else if s[..|sep|] == sep then [""] + Split(s[|sep|..], sep)
    else
      var ps := Split(s[1..], sep);
      [[s[0]] + ps[0]] + ps[1..]
  }

  /** `sep.join(parts)`. */
  function Join(parts: seq<string>, sep: string): string
    requires |parts| >= 1
  {
    if |parts| == 1 then parts[0] else parts[0] + sep + Join(parts[1..], sep)
  }

  /** Extending the first piece extends the joined string by the same prefix. */
  lemma JoinExtendFirst(c: char, ps: seq<string>, sep: string)
    requires |ps| >= 1
    ensures Join([[c] + ps[0]] + ps[1..], sep) == [c] + Join(ps, sep)
  {
  }

  /** Joining the pieces back with the separator gives the original string. */
  lemma {:induction false} JoinSplit(s: string, sep: string)
    requires sep != []
    ensures Join(Split(s, sep), sep) == s
    decreases |s|
  {
    if |s| < |sep| {
    } else if s[..|sep|] == sep {
      JoinSplit(s[|sep|..], sep);
      var ps := [""] + Split(s[|sep|..], sep);
      assert ps[1..] == Split(s[|sep|..], sep);
      assert s == sep + s[|sep|..];
    } else {
      JoinSplit(s[1..], sep);
      JoinExtendFirst(s[0], Split(s[1..], sep), sep);
      assert s == [s[0]] + s[1..];
    }
  }

  /**
   * Every occurrence is replaced: the result is the pieces of `s` between
   * occurrences of `target`, joined with `replacement` instead.
   */
  lemma {:induction false} ReplaceIsJoin(s: string, target: string, replacement: string)
    requires target != []
    ensures Replace(s, target, replacement) == Join(Split(s, target), replacement)
    decreases |s|
  {
    if |s| < |target| {
    } else if s[..|target|] == target {
      ReplaceIsJoin(s[|target|..], target, replacement);
      var ps := [""] + Split(s[|target|..], target);
      assert ps[1..] == Split(s[|target|..], target);
    } else {
      ReplaceIsJoin(s[1..], target, replacement);
      JoinExtendFirst(s[0], Split(s[1..], target), replacement);
    }
  }

  /** An occurrence in a prefix of `s` is an occurrence in `s`. */
  lemma OccursInPrefix(p: string, s: string, pat: string, i: int)
    requires |p| <= |s| && p == s[..|p|]
    ensures OccursAt(p, pat, i) ==> OccursAt(s, pat, i)
  {
  }

  /** Occurrences in `[c] + t` past index 0 are those of `t`, shifted by one. */
  lemma OccursAfterHead(c: char, t: string, pat: string, i: int)
    requires i > 0
    ensures OccursAt([c] + t, pat, i) <==> OccursAt(t, pat, i - 1)
  {
  }

  /** No piece of a split contains the separator. */
  lemma {:induction false} SplitPiecesClean(s: string, sep: string)
    requires sep != []
    ensures forall k :: 0 <= k < |Split(s, sep)| ==> !Contains(Split(s, sep)[k], sep)
    decreases |s|
  {
    var parts := Split(s, sep);
    if |s| < |sep| {
      forall i ensures !OccursAt(s, sep, i) {
      }
    } else if s[..|sep|] == sep {
      SplitPiecesClean(s[|sep|..], sep);
      assert parts[1..] == Split(s[|sep|..], sep);
      forall k | 0 <= k < |parts| ensures !Contains(parts[k], sep) {
        if k == 0 {
          forall i ensures !OccursAt(parts[0], sep, i) {
          }
        } else {
          assert parts[k] == Split(s[|sep|..], sep)[k - 1];
        }
      }
    } else {
      var ps := Split(s[1..], sep);
      SplitPiecesClean(s[1..], sep);
      assert parts[1..] == ps[1..];
      forall k | 0 <= k < |parts| ensures !Contains(parts[k], sep) {
        if k == 0 {
          var first := [s[0]] + ps[0];
          assert first == s[..|first|];
          assert !OccursAt(s, sep, 0);
          forall i ensures !OccursAt(first, sep, i) {
            OccursInPrefix(first, s, sep, i);
            if i > 0 {
              OccursAfterHead(s[0], ps[0], sep, i);
            }
          }
        } else {
          assert parts[k] == ps[k];
        }
      }
    }
  }

  /** A string without `target` comes back from `Replace` unchanged. */
  lemma {:induction false} ReplaceAbsent(s: string, target: string, replacement: string)
    requires target != []
    requires !Contains(s, target)
    ensures Replace(s, target, replacement) == s
    decreases |s|
  {
    if |s| < |target| {
    } else if s[..|target|] == target {
      assert OccursAt(s, target, 0);
    } else {
      forall i ensures !OccursAt(s[1..], target, i) {
        if OccursAt(s[1..], target, i) {
          assert s[1..][i..i + |target|] == s[i + 1..i + 1 + |target|];
          assert OccursAt(s, target, i + 1);
        }
      }
      ReplaceAbsent(s[1..], target, replacement);
    }
  }

  // ---------------------------------------------------------------------
  // Where `Replace` cuts

  /** The suffix of `t` from `d` is also a prefix of `t`. */
  predicate Overlaps(t: string, d: nat)
    requires d <= |t|
  {
    t[d..] == t[..|t| - d]
  }

  /** No proper suffix of `t` is also a prefix of it, so two occurrences cannot overlap. */
  predicate SelfOverlapFree(t: string) {
    forall d :: 0 < d < |t| ==> !Overlaps(t, d)
  }

  /**
   * `c` is a position at which a separator stands in `Join(parts, sep)`:
   * right after the first piece, or a cut point of the remaining pieces
   * shifted past the first piece and its separator.
   */
  predicate IsCutPoint(parts: seq<string>, sep: string, c: int)
    requires |parts| >= 1
    decreases |parts|
  {
    |parts| > 1 && (c == |parts[0]| || IsCutPoint(parts[1..], sep, c - |parts[0]| - |sep|))
  }

  /** An occurrence in `t` is an occurrence in `u + t`, shifted by `|u|`. */
  lemma OccursAfterPrefix(u: string, t: string, pat: string, i: int)
    requires OccursAt(t, pat, i)
    ensures OccursAt(u + t, pat, i + |u|)
  {
  }

  /** The separator stands at every cut point of the joined pieces. */
  lemma {:induction false} CutPointsOccur(parts: seq<string>, sep: string, c: int)
    requires |parts| >= 1 && IsCutPoint(parts, sep, c)
    ensures OccursAt(Join(parts, sep), sep, c)
    decreases |parts|
  {
    var tail := Join(parts[1..], sep);
    assert Join(parts, sep) == parts[0] + sep + tail;
    if c == |parts[0]| {
      assert (parts[0] + sep + tail)[c..c + |sep|] == sep;
    } else {
      var c' := c - |parts[0]| - |sep|;
      CutPointsOccur(parts[1..], sep, c');
      OccursAfterPrefix(parts[0] + sep, tail, sep, c');
    }
  }

  /** Two occurrences less than `|sep|` apart make `sep` overlap itself. */
  lemma OverlapShift(s: string, sep: string, i: int)
    requires OccursAt(s, sep, 0) && 0 < i < |sep| && OccursAt(s, sep, i)
    ensures Overlaps(sep, i)
  {
  }

  /** Extending the first piece by one character moves every cut point by one. */
  lemma CutPointsExtendFirst(c: char, ps: seq<string>, sep: string, x: int)
    requires |ps| >= 1 && IsCutPoint(ps, sep, x)
    ensures IsCutPoint([[c] + ps[0]] + ps[1..], sep, x + 1)
  {
  }

  /** Putting the separator in front of the pieces moves every cut point past it. */
  lemma CutPointsAfterSep(ps: seq<string>, sep: string, x: int)
    requires |ps| >= 1 && IsCutPoint(ps, sep, x)
    ensures IsCutPoint([""] + ps, sep, x + |sep|)
  {
  }

  /** An occurrence at or after `d` is an occurrence in `s[d..]`, shifted by `d`. */
  lemma OccursInSuffix(s: string, pat: string, d: nat, i: int)
    requires d <= i && OccursAt(s, pat, i)
    ensures OccursAt(s[d..], pat, i - d)
  {
  }

  /**
   * For a target that cannot overlap itself, every occurrence in `s` is a
   * cut point of `Split(s, target)`, where `Replace` puts the replacement:
   * no occurrence is left unreplaced.
   */
  lemma {:induction false} OccurrencesAreCuts(s: string, sep: string, i: int)
    requires sep != [] && SelfOverlapFree(sep)
    requires OccursAt(s, sep, i)
    ensures IsCutPoint(Split(s, sep), sep, i)
    decreases |s|
  {
    if s[..|sep|] == sep {
      var ps := Split(s[|sep|..], sep);
      assert Split(s, sep) == [""] + ps;
      if i == 0 {
        assert IsCutPoint([""] + ps, sep, 0);
      } else if i < |sep| {
        OverlapShift(s, sep, i);
      } else {
        OccursInSuffix(s, sep, |sep|, i);
        OccurrencesAreCuts(s[|sep|..], sep, i - |sep|);
        CutPointsAfterSep(ps, sep, i - |sep|);
      }
    } else {
      assert s[..|sep|] == s[0..|sep|];
      OccursInSuffix(s, sep, 1, i);
      OccurrencesAreCuts(s[1..], sep, i - 1);
      CutPointsExtendFirst(s[0], Split(s[1..], sep), sep, i - 1);
    }
  }

  /** Every cut point of `Split(s, sep)` is an occurrence of `sep` in `s`. */
  lemma CutsAreOccurrences(s: string, sep: string, c: int)
    requires sep != [] && IsCutPoint(Split(s, sep), sep, c)
    ensures OccursAt(s, sep, c)
  {
    CutPointsOccur(Split(s, sep), sep, c);
    JoinSplit(s, sep);
  }
}

/// The JavaScript string primitives the pipeline relies on: the white space
/// of `\s` and `String.prototype.trim`, the word characters behind `\b`,
/// case-insensitive comparison as a regular expression without the `u` flag
/// performs it (ASCII letters only), and `trim`.
module Text {

  /** White space as JavaScript's `\s` and `trim` see it. */
  predicate IsSpace(c: char) {
    c == ' ' || ('\t' <= c <= '\r') || ('\U{00A0}' <= c && IsWideSpace(c))
  }

  /** The white space above the ASCII range. */
  predicate IsWideSpace(c: char) {
    || c == '\U{00A0}' || c == '\U{1680}' || ('\U{2000}' <= c <= '\U{200A}')
    || c == '\U{2028}' || c == '\U{2029}' || c == '\U{202F}' || c == '\U{205F}'
    || c == '\U{3000}' || c == '\U{FEFF}'
  }

  /** The characters `.` in a regular expression does not match. */
  predicate IsLineTerminator(c: char) {
    c == '\n' || c == '\r' || c == '\U{2028}' || c == '\U{2029}'
  }

  /** `\w`: the characters on one side of a `\b` word boundary. */
  predicate IsWordChar(c: char) {
    ('a' <= c <= 'z') || ('A' <= c <= 'Z') || ('0' <= c <= '9') || c == '_'
  }

  /** ASCII lower-casing, the case folding of a regular expression with the `i` flag. */
  function Lower(c: char): (r: char)
    ensures IsWordChar(r) <==> IsWordChar(c)
    ensures !('A' <= r <= 'Z')
    ensures !('A' <= c <= 'Z') ==> r == c
  {
    if 'A' <= c <= 'Z' then (c as int + 32) as char else c
  }

  function LowerStr(s: string): (r: string)
    ensures |r| == |s|
    ensures forall i :: 0 <= i < |s| ==> r[i] == Lower(s[i])
  {
    seq(|s|, i requires 0 <= i < |s| => Lower(s[i]))
  }

  /** Lower-casing changes nothing in a text without upper-case letters. */
  lemma LowerStrNoUpper(s: string)
    requires forall j :: 0 <= j < |s| ==> !('A' <= s[j] <= 'Z')
    ensures LowerStr(s) == s
  {
  }

  /** A sequence is its prefix of length `n` followed by the rest. */
  lemma SplitJoin<T>(s: seq<T>, n: nat)
    requires n <= |s|
    ensures s[..n] + s[n..] == s
  {
  }

  predicate AllSpace(s: string) {
    forall i :: 0 <= i < |s| ==> IsSpace(s[i])
  }

  /** A character inside an all-white-space slice is white space. */
  lemma SpaceInSlice(s: string, lo: int, hi: int, j: int)
    ensures 0 <= lo <= j < hi <= |s| && AllSpace(s[lo..hi]) ==> IsSpace(s[j])
  {
    if 0 <= lo <= j < hi <= |s| && AllSpace(s[lo..hi]) {
      assert s[lo..hi][j - lo] == s[j];
    }
  }

  predicate NoLineTerminator(s: string) {
    forall i :: 0 <= i < |s| ==> !IsLineTerminator(s[i])
  }

  /** `w`, which is lower case, occurs at index `i` of `s` up to ASCII case. */
  predicate CiAt(s: string, i: nat, w: string) {
    i + |w| <= |s| && forall k :: 0 <= k < |w| ==> Lower(s[i + k]) == w[k]
  }

  lemma CiAtChar(s: string, i: nat, w: string, j: nat)
    requires CiAt(s, i, w) && j < |w|
    ensures Lower(s[i + j]) == w[j]
  {
  }

  /** `CiAt` compares the lower-cased slice of `s` with `w`. */
  lemma CiAtSlice(s: string, i: nat, w: string)
    ensures CiAt(s, i, w) <==> i + |w| <= |s| && LowerStr(s[i..i + |w|]) == w
  {
    if i + |w| <= |s| {
      var l := LowerStr(s[i..i + |w|]);
      assert forall k :: 0 <= k < |w| ==> l[k] == Lower(s[i + k]);
    }
  }

  /** A `\b` holds at index `n` given that `s[n - 1]` is a word character: `s` ends there or continues with a non-word character. */
  predicate EndsWord(s: string, n: nat) {
    n == |s| || (n < |s| && !IsWordChar(s[n]))
  }

  /** The length of the run of white space starting at index `i` (what a greedy `\s*` consumes there). */
  function SpaceRun(s: string, i: nat): (n: nat)
    decreases |s| - i
    ensures n > 0 ==> i + n <= |s|
    ensures i + n < |s| ==> !IsSpace(s[i + n])
  {
    if i < |s| && IsSpace(s[i]) then 1 + SpaceRun(s, i + 1) else 0
  }

  /** Every character of the run is white space. */
  lemma {:induction false} SpaceRunSpaces(s: string, i: nat)
    ensures forall j :: i <= j < i + SpaceRun(s, i) ==> IsSpace(s[j])
    decreases |s| - i
  {
    if i < |s| && IsSpace(s[i]) {
      SpaceRunSpaces(s, i + 1);
    }
  }

  /** `s` with its leading white space removed. */
  function TrimStart(s: string): (r: string)
    ensures |r| <= |s|
    ensures r != [] ==> !IsSpace(r[0])
    ensures s != [] && IsSpace(s[0]) ==> |r| < |s|
  {
    if s != [] && IsSpace(s[0]) then TrimStart(s[1..]) else s
  }

  /** What `TrimStart` removes is white space, and what it keeps is a suffix of `s`. */
  lemma {:induction false} TrimStartSlices(s: string)
    ensures TrimStart(s) == s[|s| - |TrimStart(s)|..]
    ensures AllSpace(s[..|s| - |TrimStart(s)|])
    decreases |s|
  {
    if s != [] && IsSpace(s[0]) {
      TrimStartSlices(s[1..]);
      var r := TrimStart(s);
      var n := |s| - |r|;
      assert s[1..][|s| - 1 - |r|..] == s[n..];
      forall j | 0 <= j < n ensures IsSpace(s[..n][j]) {
        if j > 0 {
          assert s[..n][j] == s[1..][..n - 1][j - 1];
        }
      }
    }
  }

  /** `s` with its trailing white space removed. */
  function TrimEnd(s: string): (r: string)
    ensures |r| <= |s|
    ensures r != [] ==> !IsSpace(r[|r| - 1])
  {
    if s != [] && IsSpace(s[|s| - 1]) then TrimEnd(s[..|s| - 1]) else s
  }

  /** What `TrimEnd` keeps is a prefix of `s`, and what it removes is white space. */
  lemma {:induction false} TrimEndSlices(s: string)
    ensures TrimEnd(s) == s[..|TrimEnd(s)|]
    ensures AllSpace(s[|TrimEnd(s)|..])
    decreases |s|
  {
    if s != [] && IsSpace(s[|s| - 1]) {
      var t := s[..|s| - 1];
      TrimEndSlices(t);
      var r := TrimEnd(s);
      assert t[..|r|] == s[..|r|];
      forall j | |r| <= j < |s| ensures IsSpace(s[j]) {
        if j < |s| - 1 {
          assert s[j] == t[|r|..][j - |r|];
        }
      }
      assert forall j :: 0 <= j < |s[|r|..]| ==> s[|r|..][j] == s[|r| + j];
    }
  }

  /** `String.prototype.trim`. */
  function Trim(s: string): (r: string)
    ensures |r| <= |s|
    ensures r != [] ==> !IsSpace(r[0]) && !IsSpace(r[|r| - 1])
    ensures r == [] <==> AllSpace(s)
  {
    TrimStartAllSpace(s);
    TrimEndEmpty(TrimStart(s));
    TrimEndSlices(TrimStart(s));
    TrimEnd(TrimStart(s))
  }

  lemma TrimStartAllSpace(s: string)
    ensures AllSpace(TrimStart(s)) <==> AllSpace(s)
  {
    var t := TrimStart(s);
    TrimStartSlices(s);
    assert s == s[..|s| - |t|] + t;
    AllSpaceConcat(s[..|s| - |t|], t);
  }

  lemma TrimEndEmpty(t: string)
    ensures TrimEnd(t) == [] <==> AllSpace(t)
  {
    var r := TrimEnd(t);
    TrimEndSlices(t);
    if r == [] {
      assert t[|r|..] == t;
    } else {
      assert t[|r| - 1] == r[|r| - 1];
    }
  }

  /** `trim` keeps every character up to the last non-white-space one. */
  lemma TrimEndKeeps(a: string, k: nat)
    requires 0 < k <= |a| && !IsSpace(a[k - 1])
    ensures |TrimEnd(a)| >= k && TrimEnd(a)[..k] == a[..k]
  {
    var t := TrimEnd(a);
    TrimEndSlices(a);
    SpaceInSlice(a, |t|, |a|, k - 1);
    assert t[..k] == a[..|t|][..k];
  }

  /** `trim` removes exactly the white space around a text that neither starts nor ends with white space. */
  lemma {:induction false} TrimStartAfterSpace(pre: string, y: string)
    requires AllSpace(pre) && y != [] && !IsSpace(y[0])
    ensures TrimStart(pre + y) == y
    decreases |pre|
  {
    if pre == [] {
      assert pre + y == y;
    } else {
      assert (pre + y)[1..] == pre[1..] + y;
      TrimStartAfterSpace(pre[1..], y);
    }
  }

  lemma {:induction false} TrimEndBeforeSpace(y: string, post: string)
    requires AllSpace(post) && y != [] && !IsSpace(y[|y| - 1])
    ensures TrimEnd(y + post) == y
    decreases |post|
  {
    if post == [] {
      assert y + post == y;
    } else {
      var p' := post[..|post| - 1];
      assert (y + post)[..|y + post| - 1] == y + p';
      TrimEndBeforeSpace(y, p');
    }
  }

  lemma TrimAround(pre: string, x: string, post: string)
    requires AllSpace(pre) && AllSpace(post)
    requires x != [] && !IsSpace(x[0]) && !IsSpace(x[|x| - 1])
    ensures Trim(pre + x + post) == x
  {
    assert pre + x + post == pre + (x + post);
    TrimStartAfterSpace(pre, x + post);
    TrimEndBeforeSpace(x, post);
  }

  lemma {:induction false} TrimStartSpaceAfter(y: string, c: char)
    requires IsSpace(c)
    ensures TrimStart(y + [c]) == if AllSpace(y) then [] else TrimStart(y) + [c]
  {
    if y == [] {
      assert TrimStart([c]) == TrimStart([]);
    } else if IsSpace(y[0]) {
      LeadingSpace(y, c);
      TrimStartSpaceAfter(y[1..], c);
    } else {
      assert (y + [c])[0] == y[0];
    }
  }

  /** A leading white-space character changes neither `TrimStart` nor whether all is white space. */
  lemma LeadingSpace(y: string, c: char)
    requires y != [] && IsSpace(y[0])
    ensures TrimStart(y + [c]) == TrimStart(y[1..] + [c])
    ensures TrimStart(y) == TrimStart(y[1..])
    ensures AllSpace(y) == AllSpace(y[1..])
  {
    assert (y + [c])[1..] == y[1..] + [c];
    assert y == [y[0]] + y[1..];
    AllSpaceConcat([y[0]], y[1..]);
  }

  lemma TrimEndSpaceAfter(x: string, c: char)
    requires IsSpace(c)
    ensures TrimEnd(x + [c]) == TrimEnd(x)
  {
    assert (x + [c])[..|x|] == x;
  }

  /** White space appended to a text does not change its trimmed form. */
  lemma TrimSpaceAfter(y: string, c: char)
    requires IsSpace(c)
    ensures Trim(y + [c]) == Trim(y)
  {
    TrimStartSpaceAfter(y, c);
    if !AllSpace(y) {
      TrimEndSpaceAfter(TrimStart(y), c);
    }
  }

  /** A concatenation is all white space exactly when both parts are. */
  lemma AllSpaceConcat(a: string, b: string)
    ensures AllSpace(a + b) <==> AllSpace(a) && AllSpace(b)
  {
    if AllSpace(a) && AllSpace(b) {
      forall i | 0 <= i < |a + b|
        ensures IsSpace((a + b)[i])
      {
        if i >= |a| {
          assert (a + b)[i] == b[i - |a|];
        }
      }
    }
    if AllSpace(a + b) {
      forall i | 0 <= i < |a|
        ensures IsSpace(a[i])
      {
        assert (a + b)[i] == a[i];
      }
      forall i | 0 <= i < |b|
        ensures IsSpace(b[i])
      {
        assert (a + b)[|a| + i] == b[i];
      }
    }
  }
}

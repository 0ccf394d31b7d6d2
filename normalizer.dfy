/// `normalizeInput` (src/parser/normalizer.ts): a fixed chain of six
/// regular-expression rewrites followed by `trim`. The five global rewrites
/// are recursive scans that mirror how a global `replace` walks the string:
/// try to match at the current position, emit the replacement and continue
/// after the match, or copy one character and move on. The end-anchored
/// period rewrite is not a scan: it works on the text with its trailing white
/// space removed. `afterWord` records whether the character before the
/// current position is a word character, which decides a leading `\b`.
module Normalizer {
  import opened Text

  // Line 14, `/\s+/g` -> `" "`: every run of white space becomes one space.
  function CollapseWhitespace(s: string): string
    decreases |s|
  {
    if s == [] then []
    else if IsSpace(s[0]) then " " + CollapseWhitespace(TrimStart(s))
    else [s[0]] + CollapseWhitespace(s[1..])
  }

  // Line 15, `/\s*,\s*/g` -> `", "`: a comma with the white space around it becomes `", "`.
  function NormalizeCommas(s: string): string
    decreases |s|
  {
    if s == [] then []
    else
      var t := TrimStart(s);
      if t != [] && t[0] == ',' then ", " + NormalizeCommas(TrimStart(t[1..]))
      else [s[0]] + NormalizeCommas(s[1..])
  }

  // Line 16, `/\s*\.\s*$/` -> `"."`: a final period with white space around it becomes a bare final period.
  function TerminatePeriod(s: string): string {
    var t := TrimEnd(s);
    if t != [] && t[|t| - 1] == '.' then TrimEnd(t[..|t| - 1]) + "." else s
  }

  // The length of the article (`a`, `an` or `the`, tried in that order) at index `j` that is followed by white space, or 0.
  function ArticleLength(s: string, j: nat): nat {
    if CiAt(s, j, "a") && SpaceRun(s, j + 1) > 0 then 1
    else if CiAt(s, j, "an") && SpaceRun(s, j + 2) > 0 then 2
    else if CiAt(s, j, "the") && SpaceRun(s, j + 3) > 0 then 3
    else 0
  }

  // How much `/\b(as)\s+(a|an|the)\s+/i` consumes at the start of `s`, or 0 when it does not match there.
  function ArticleMatch(s: string, afterWord: bool): (n: nat)
    ensures n == 0 || n <= |s|
  {
    if afterWord || !CiAt(s, 0, "as") then 0
    else
      var w := SpaceRun(s, 2);
      var a := ArticleLength(s, 2 + w);
      if w == 0 || a == 0 then 0
      else 2 + w + a + SpaceRun(s, 2 + w + a)
  }

  // Line 17, `/\b(as)\s+(a|an|the)\s+/gi` -> `"as "`: drop one article after a standalone `as`.
  function StripArticles(s: string, afterWord: bool): string
    decreases |s|
  {
    if s == [] then []
    else
      var n := ArticleMatch(s, afterWord);
      if n > 0 then "as " + StripArticles(s[n..], false)
      else [s[0]] + StripArticles(s[1..], IsWordChar(s[0]))
  }

  // The alternatives of line 19, in the order the regular expression tries them.
  const Keywords: seq<string> := ["must not", "must", "as", "i", "we", "when", "if", "whenever", "then"]

  // The first keyword of `ks` that occurs at the start of `s` up to case and ends a word there, or `""`.
  function FirstKeyword(s: string, ks: seq<string>): (k: string)
    ensures k == "" || (k in ks && CiAt(s, 0, k) && EndsWord(s, |k|))
  {
    if ks == [] then ""
    else if ks[0] != "" && CiAt(s, 0, ks[0]) && EndsWord(s, |ks[0]|) then ks[0]
    else FirstKeyword(s, ks[1..])
  }

  // What `/\b(must not|must|as|i|we|when|if|whenever|then)\b/i` matches at the start of `s`, or `""`.
  function KeywordMatch(s: string, afterWord: bool): (k: string)
    ensures k == "" || (k in Keywords && CiAt(s, 0, k) && EndsWord(s, |k|))
  {
    if afterWord then "" else FirstKeyword(s, Keywords)
  }

  // Lines 18-21: every standalone keyword, in any case, is replaced by its lower-case form.
  function LowerKeywords(s: string, afterWord: bool): string
    decreases |s|
  {
    if s == [] then []
    else
      var k := KeywordMatch(s, afterWord);
      if k != "" then LowerStr(s[..|k|]) + LowerKeywords(s[|k|..], true)
      else [s[0]] + LowerKeywords(s[1..], IsWordChar(s[0]))
  }

  // How much `/\b(if|whenever)\b/` (case-sensitive) matches at the start of `s`, or 0.
  function ConditionWordMatch(s: string, afterWord: bool): (n: nat)
    ensures n == 0 || n == 2 || n == 8
    ensures n <= |s|
  {
    if afterWord then 0
    else if |s| >= 2 && s[..2] == "if" && EndsWord(s, 2) then 2
    else if |s| >= 8 && s[..8] == "whenever" && EndsWord(s, 8) then 8
    else 0
  }

  // Line 22, `/\b(if|whenever)\b/g` -> `"when"`.
  function UnifyConditionWords(s: string, afterWord: bool): string
    decreases |s|
  {
    if s == [] then []
    else
      var n := ConditionWordMatch(s, afterWord);
      if n > 0 then "when" + UnifyConditionWords(s[n..], true)
      else [s[0]] + UnifyConditionWords(s[1..], IsWordChar(s[0]))
  }

  // `normalizeInput` (lines 12-24): the six rewrites in source order, then `trim`.
  function Normalize(input: string): string {
    var s1 := CollapseWhitespace(input);
    var s2 := NormalizeCommas(s1);
    var s3 := TerminatePeriod(s2);
    var s4 := StripArticles(s3, false);
    var s5 := LowerKeywords(s4, false);
    var s6 := UnifyConditionWords(s5, false);
    Trim(s6)
  }
}

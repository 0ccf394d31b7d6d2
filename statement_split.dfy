/// The line splitting of src/api/public_api.ts (`splitStatements`, lines
/// 47-54): a text is cut at its line breaks, every line is trimmed, and the
/// blank ones are dropped.
module StatementSplit {
  import opened Text

  /** `s` cut at every line feed; the line feeds themselves are dropped. */
  function LineFeedPieces(s: string): (p: seq<string>)
    ensures |p| >= 1
  {
    if s == [] then [[]]
    else
      var rest := LineFeedPieces(s[1..]);
      if s[0] == '\n' then [[]] + rest else [[s[0]] + rest[0]] + rest[1..]
  }

  /** A line that a `\r\n` ended loses its `\r`. */
  function DropCR(l: string): string {
    if l != [] && l[|l| - 1] == '\r' then l[..|l| - 1] else l
  }

  /** Line 51, `split(/\r?\n/)`: cut at every line feed, together with a carriage return right before it. */
  function SplitLines(s: string): (lines: seq<string>)
    ensures |lines| >= 1
  {
    DropCRs(LineFeedPieces(s))
  }

  /** Every piece but the last was ended by a line feed, and loses a carriage return right before it. */
  function DropCRs(pieces: seq<string>): (lines: seq<string>)
    ensures |lines| == |pieces|
  {
    if |pieces| <= 1 then pieces else [DropCR(pieces[0])] + DropCRs(pieces[1..])
  }

  function TrimAll(lines: seq<string>): (r: seq<string>)
    ensures |r| == |lines|
  {
    if lines == [] then [] else [Trim(lines[0])] + TrimAll(lines[1..])
  }

  predicate Trimmed(x: string) {
    x != [] && !IsSpace(x[0]) && !IsSpace(x[|x| - 1])
  }

  function NonEmpty(xs: seq<string>): (r: seq<string>)
  {
    if xs == [] then []
    else (if xs[0] == [] then [] else [xs[0]]) + NonEmpty(xs[1..])
  }

  lemma {:induction false} NonEmptyTrimmed(xs: seq<string>)
    requires forall k :: 0 <= k < |xs| ==> xs[k] == [] || Trimmed(xs[k])
    ensures forall i :: 0 <= i < |NonEmpty(xs)| ==> Trimmed(NonEmpty(xs)[i])
  {
    if xs != [] {
      NonEmptyTrimmed(xs[1..]);
    }
  }

  lemma {:induction false} TrimAllTrimmed(lines: seq<string>)
    ensures forall k :: 0 <= k < |lines| ==> TrimAll(lines)[k] == [] || Trimmed(TrimAll(lines)[k])
    decreases |lines|
  {
    if lines != [] {
      TrimAllTrimmed(lines[1..]);
      var r, t := TrimAll(lines), TrimAll(lines[1..]);
      assert r == [Trim(lines[0])] + t;
      forall k | 0 <= k < |lines|
        ensures r[k] == [] || Trimmed(r[k])
      {
        if k > 0 {
          assert r[k] == t[k - 1];
        }
      }
    }
  }

  function SplitStatements(content: string): (r: seq<string>)
    ensures forall i :: 0 <= i < |r| ==> Trimmed(r[i])
  {
    var t := TrimAll(SplitLines(content));
    TrimAllTrimmed(SplitLines(content));
    NonEmptyTrimmed(t);
    NonEmpty(t)
  }

  lemma {:induction false} PiecesAppend(a: string, b: string)
    ensures LineFeedPieces(a + "\n" + b) == LineFeedPieces(a) + LineFeedPieces(b)
    decreases |a|
  {
    if a == [] {
      assert a + "\n" + b == ['\n'] + b;
      PiecesCons('\n', b);
    } else {
      assert a == [a[0]] + a[1..];
      assert a + "\n" + b == [a[0]] + (a[1..] + "\n" + b);
      PiecesCons(a[0], a[1..] + "\n" + b);
      PiecesCons(a[0], a[1..]);
      PiecesAppend(a[1..], b);
      if a[0] != '\n' {
        HeadAppend([a[0]], LineFeedPieces(a[1..]), LineFeedPieces(b));
      }
    }
  }

  lemma HeadAppend(x: string, p: seq<string>, q: seq<string>)
    requires |p| >= 1
    ensures [x + (p + q)[0]] + (p + q)[1..] == [x + p[0]] + p[1..] + q
  {
  }

  lemma {:induction false} PiecesOfLine(l: string)
    requires forall j :: 0 <= j < |l| ==> l[j] != '\n'
    ensures LineFeedPieces(l) == [l]
    decreases |l|
  {
    if l != [] {
      PiecesOfLine(l[1..]);
      assert [l[0]] + l[1..] == l;
    }
  }

  /** `p` with `c` appended to its last piece. */
  function ExtendLast(p: seq<string>, c: char): seq<string>
    requires |p| >= 1
  {
    p[..|p| - 1] + [p[|p| - 1] + [c]]
  }

  lemma PiecesCons(x: char, s: string)
    ensures LineFeedPieces([x] + s) ==
      if x == '\n' then [[]] + LineFeedPieces(s)
      else [[x] + LineFeedPieces(s)[0]] + LineFeedPieces(s)[1..]
  {
    assert ([x] + s)[1..] == s;
  }

  lemma ExtendLastPrepend(h: string, rest: seq<string>, c: char)
    requires |rest| >= 1
    ensures ExtendLast([h] + rest, c) == [h] + ExtendLast(rest, c)
  {
    assert ([h] + rest)[..|rest|] == [h] + rest[..|rest| - 1];
  }

  lemma ExtendLastHead(x: char, rest: seq<string>, c: char)
    requires |rest| >= 1
    ensures var r := ExtendLast(rest, c);
      ExtendLast([[x] + rest[0]] + rest[1..], c) == [[x] + r[0]] + r[1..]
  {
    if |rest| == 1 {
      assert [x] + (rest[0] + [c]) == ([x] + rest[0]) + [c];
    } else {
      ExtendLastPrepend([x] + rest[0], rest[1..], c);
      ExtendLastPrepend(rest[0], rest[1..], c);
      assert rest == [rest[0]] + rest[1..];
    }
  }

  /** Appending a character other than a line feed extends the last piece. */
  lemma {:induction false} PiecesExtend(a: string, c: char)
    requires c != '\n'
    ensures LineFeedPieces(a + [c]) == ExtendLast(LineFeedPieces(a), c)
    decreases |a|
  {
    if a == [] {
      assert a + [c] == [c] + [];
      PiecesCons(c, []);
    } else {
      PiecesExtend(a[1..], c);
      assert a == [a[0]] + a[1..];
      assert a + [c] == [a[0]] + (a[1..] + [c]);
      PiecesCons(a[0], a[1..]);
      PiecesCons(a[0], a[1..] + [c]);
      if a[0] == '\n' {
        ExtendLastPrepend([], LineFeedPieces(a[1..]), c);
      } else {
        ExtendLastHead(a[0], LineFeedPieces(a[1..]), c);
      }
    }
  }

  lemma TrimDropCR(l: string)
    ensures Trim(DropCR(l)) == Trim(l)
  {
    if l != [] && l[|l| - 1] == '\r' {
      var k := l[..|l| - 1];
      assert l == k + ['\r'];
      TrimSpaceAfter(k, '\r');
    }
  }

  /** Trimming forgets the carriage returns `split` drops. */
  lemma TrimmedLines(s: string)
    ensures TrimAll(SplitLines(s)) == TrimAll(LineFeedPieces(s))
  {
    TrimDropCRs(LineFeedPieces(s));
  }

  lemma {:induction false} TrimDropCRs(p: seq<string>)
    ensures TrimAll(DropCRs(p)) == TrimAll(p)
    decreases |p|
  {
    if |p| > 1 {
      TrimDropCRs(p[1..]);
      TrimDropCR(p[0]);
    }
  }

  lemma {:induction false} NonEmptyAppend(x: seq<string>, y: seq<string>)
    ensures NonEmpty(x + y) == NonEmpty(x) + NonEmpty(y)
    decreases |x|
  {
    if x == [] {
      assert x + y == y;
    } else {
      assert (x + y)[1..] == x[1..] + y;
      NonEmptyAppend(x[1..], y);
    }
  }

  lemma {:induction false} TrimAllAppend(x: seq<string>, y: seq<string>)
    ensures TrimAll(x + y) == TrimAll(x) + TrimAll(y)
    decreases |x|
  {
    if x == [] {
      assert x + y == y;
    } else {
      assert (x + y)[1..] == x[1..] + y;
      TrimAllAppend(x[1..], y);
    }
  }

  /** The statements of one line: none when it is blank, else the line trimmed. */
  lemma StatementsOfLine(l: string)
    requires forall j :: 0 <= j < |l| ==> l[j] != '\n'
    ensures SplitStatements(l) == if AllSpace(l) then [] else [Trim(l)]
  {
    PiecesOfLine(l);
    TrimmedLines(l);
    var t := TrimAll([l]);
    assert t == [Trim(l)];
    assert NonEmpty(t) == (if Trim(l) == [] then [] else [Trim(l)]) + NonEmpty([]);
  }

  /** Statements never span a line feed: those of `a + "\n" + b` are those of `a`, then those of `b`. */
  lemma StatementsAppend(a: string, b: string)
    ensures SplitStatements(a + "\n" + b) == SplitStatements(a) + SplitStatements(b)
  {
    TrimmedLines(a + "\n" + b);
    TrimmedLines(a);
    TrimmedLines(b);
    PiecesAppend(a, b);
    TrimAllAppend(LineFeedPieces(a), LineFeedPieces(b));
    NonEmptyAppend(TrimAll(LineFeedPieces(a)), TrimAll(LineFeedPieces(b)));
  }

  /** A carriage return at the end of a text adds no statement. */
  lemma StatementsDropCR(a: string)
    ensures SplitStatements(a + "\r") == SplitStatements(a)
  {
    var x := a + "\r";
    var p := LineFeedPieces(a);
    var init, last := p[..|p| - 1], p[|p| - 1];
    InitLast(p);
    PiecesExtend(a, '\r');
    assert LineFeedPieces(x) == init + [last + "\r"];
    TrimSpaceAfter(last, '\r');
    TrimAllLast(init, last + "\r", last);
    assert TrimAll(LineFeedPieces(x)) == TrimAll(p);
    TrimmedLines(x);
    TrimmedLines(a);
    assert TrimAll(SplitLines(x)) == TrimAll(SplitLines(a));
  }

  lemma InitLast(p: seq<string>)
    requires |p| >= 1
    ensures p == p[..|p| - 1] + [p[|p| - 1]]
  {
  }

  lemma TrimAllLast(init: seq<string>, x: string, y: string)
    requires Trim(x) == Trim(y)
    ensures TrimAll(init + [x]) == TrimAll(init + [y])
  {
    TrimAllAppend(init, [x]);
    TrimAllAppend(init, [y]);
    assert TrimAll([x]) == [Trim(x)] + TrimAll([]);
    assert TrimAll([y]) == [Trim(y)] + TrimAll([]);
  }

  /** The same holds at a `\r\n`. */
  lemma StatementsAppendCrLf(a: string, b: string)
    ensures SplitStatements(a + "\r\n" + b) == SplitStatements(a) + SplitStatements(b)
  {
    CrLfRegroup(a, b);
    StatementsAppend(a + "\r", b);
    StatementsDropCR(a);
  }

  lemma CrLfRegroup(a: string, b: string)
    ensures a + "\r\n" + b == (a + "\r") + "\n" + b
  {
  }

  /** A text has no statement exactly when it is all white space. */
  lemma {:induction false} StatementsBlank(s: string)
    ensures SplitStatements(s) == [] <==> AllSpace(s)
    decreases |s|
  {
    if forall j :: 0 <= j < |s| ==> s[j] != '\n' {
      StatementsOfLine(s);
    } else {
      var n :| 0 <= n < |s| && s[n] == '\n';
      var a, b := s[..n], s[n + 1..];
      SplitAtLineFeed(s, n);
      StatementsAppend(a, b);
      StatementsBlank(a);
      StatementsBlank(b);
    }
  }

  lemma SplitAtLineFeed(s: string, n: nat)
    requires n < |s| && s[n] == '\n'
    ensures s == s[..n] + "\n" + s[n + 1..]
    ensures AllSpace(s) <==> AllSpace(s[..n]) && AllSpace(s[n + 1..])
  {
    assert s == s[..n] + "\n" + s[n + 1..];
    AllSpaceConcat(s[..n] + "\n", s[n + 1..]);
    AllSpaceConcat(s[..n], "\n");
  }
}

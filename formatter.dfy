/**
 * The text post-processing of `WriteText` in the exporter: the four
 * empty-block replacements, then one `Regex.Replace` pass that rewrites
 * every bracket block the pattern matches onto a single line with
 * `DeleteIndent`. Line breaks are CR LF, as Json.NET writes them on
 * Windows.
 */
module Formatter {
  import opened Wrappers

  const CRLF: string := "\r\n"

  /** `char.IsWhiteSpace`, the characters `TrimStart()` strips. */
  predicate IsWhite(ch: char) {
    || ch == ' '
    || ('\t' <= ch <= '\r')
    || ch == '\U{0085}' || ch == '\U{00A0}' || ch == '\U{1680}'
    || ('\U{2000}' <= ch <= '\U{200A}')
    || ch == '\U{2028}' || ch == '\U{2029}' || ch == '\U{202F}' || ch == '\U{205F}' || ch == '\U{3000}'
  }

  /** The text with its white space removed: what a cosmetic rewrite must keep, in order. */
  function Ink(s: string): string {
    if s == [] then [] else (if IsWhite(s[0]) then [] else [s[0]]) + Ink(s[1..])
  }

  lemma {:induction false} InkAppend(a: string, b: string)
    ensures Ink(a + b) == Ink(a) + Ink(b)
  {
    if a != [] {
      assert (a + b)[1..] == a[1..] + b;
      InkAppend(a[1..], b);
    } else {
      assert a + b == b;
    }
  }

  ////////////////////////////////////////////////////////////////////////
  // The empty-block replacements

  /**
   * `s.Replace(pat, rep)`: the occurrences of `pat`, found left to right
   * without overlapping, each replaced by `rep`.
   */
  function Replace(s: string, pat: string, rep: string): string
    requires pat != []
    decreases |s|
  {
    if s == [] then []
    else if pat <= s then rep + Replace(s[|pat|..], pat, rep)
    else [s[0]] + Replace(s[1..], pat, rep)
  }

  /** The four replacements that put the brackets of an empty object or array on two lines. */
  function SplitEmptyBlocks(json: string): string {
    Replace(Replace(Replace(Replace(json,
      "{}\r\n", "{\r\n}\r\n"),
      "{},\r\n", "{\r\n},\r\n"),
      "[]\r\n", "[\r\n]\r\n"),
      "[],\r\n", "[\r\n],\r\n")
  }

  /** An empty block `o` followed by `tail`, as Json.NET writes it. */
  function Single(o: char, tail: string): string {
    [o, Closer(o)] + tail
  }

  /** The same block with its brackets on two lines. */
  function Split(o: char, tail: string): string {
    [o] + CRLF + [Closer(o)] + tail
  }

  /** One of the four replacements. */
  function SplitStep(s: string, o: char, tail: string): string {
    Replace(s, Single(o, tail), Split(o, tail))
  }

  lemma SplitEmptyBlocksBySteps(json: string)
    ensures SplitEmptyBlocks(json) ==
      SplitStep(SplitStep(SplitStep(SplitStep(json, '{', CRLF), '{', ",\r\n"), '[', CRLF), '[', ",\r\n")
  {
    assert "{}\r\n" == Single('{', CRLF) && "{\r\n}\r\n" == Split('{', CRLF);
    assert "{},\r\n" == Single('{', ",\r\n") && "{\r\n},\r\n" == Split('{', ",\r\n");
    assert "[]\r\n" == Single('[', CRLF) && "[\r\n]\r\n" == Split('[', CRLF);
    assert "[],\r\n" == Single('[', ",\r\n") && "[\r\n],\r\n" == Split('[', ",\r\n");
  }

  predicate IsOpener(ch: char) {
    ch == '{' || ch == '['
  }

  function Closer(o: char): char {
    if o == '{' then '}' else ']'
  }

  /** An opening bracket, a line break and its closing bracket: an empty block on two lines. */
  predicate SplitAt(t: string) {
    |t| >= 4 && IsOpener(t[0]) && t[1] == '\r' && t[2] == '\n' && t[3] == Closer(t[0])
  }

  /** Deletes the line break of every empty block written on two lines. */
  function Unsplit(t: string): string
    decreases |t|
  {
    if t == [] then []
    else if SplitAt(t) then [t[0]] + Unsplit(t[3..])
    else [t[0]] + Unsplit(t[1..])
  }

  /** Text free of brackets passes through `Unsplit` unchanged. */
  lemma {:induction false} UnsplitPlain(u: string, r: string)
    requires forall i :: 0 <= i < |u| ==> !IsOpener(u[i])
    ensures Unsplit(u + r) == u + Unsplit(r)
  {
    if u != [] {
      assert (u + r)[1..] == u[1..] + r;
      UnsplitPlain(u[1..], r);
    } else {
      assert u + r == r;
    }
  }

  /** The replacement keeps the first character of any text. */
  lemma ReplaceHead(x: string, pat: string, rep: string)
    requires pat != [] && rep != [] && rep[0] == pat[0]
    ensures x != [] ==> Replace(x, pat, rep) != [] && Replace(x, pat, rep)[0] == x[0]
  {
  }

  /** After a character that starts no occurrence, the replaced text starts an empty block exactly when the original does. */
  lemma SplitAgrees(s: string, o: char, tail: string)
    requires IsOpener(o) && (tail == CRLF || tail == ",\r\n")
    requires s != [] && !(Single(o, tail) <= s)
    ensures SplitAt([s[0]] + Replace(s[1..], Single(o, tail), Split(o, tail))) == SplitAt(s)
  {
    var pat := Single(o, tail);
    var rep := Split(o, tail);
    var t := s[1..];
    ReplaceHead(t, pat, rep);
    if t != [] && t[0] == '\r' {
      assert Replace(t, pat, rep) == ['\r'] + Replace(t[1..], pat, rep);
      ReplaceHead(t[1..], pat, rep);
      if t[1..] != [] && t[1] == '\n' {
        assert Replace(t[1..], pat, rep) == ['\n'] + Replace(t[2..], pat, rep);
        ReplaceHead(t[2..], pat, rep);
      }
    }
  }

  /** `Unsplit` turns the two-line form of an empty block back into the single form. */
  lemma UnsplitSplit(o: char, tail: string, r: string)
    requires IsOpener(o) && (tail == CRLF || tail == ",\r\n")
    ensures Unsplit(Split(o, tail) + r) == Single(o, tail) + Unsplit(r)
  {
    var c := Closer(o);
    var t := Split(o, tail) + r;
    assert t == [o, '\r', '\n'] + ([c] + tail + r);
    assert SplitAt(t);
    assert t[3..] == [c] + tail + r;
    UnsplitPlain([c] + tail, r);
  }

  /** `Unsplit` leaves the single form of an empty block as it is. */
  lemma UnsplitSingle(o: char, tail: string, x: string)
    requires IsOpener(o) && (tail == CRLF || tail == ",\r\n")
    ensures Unsplit(Single(o, tail) + x) == Single(o, tail) + Unsplit(x)
  {
    var c := Closer(o);
    var t := Single(o, tail) + x;
    assert !SplitAt(t);
    assert t[1..] == [c] + tail + x;
    UnsplitPlain([c] + tail, x);
  }

  /**
   * Splitting an empty block only inserts a line break between its two
   * brackets: deleting such line breaks gives the same text before and
   * after the replacement.
   */
  lemma {:induction false} UnsplitReplace(s: string, o: char, tail: string)
    requires IsOpener(o) && (tail == CRLF || tail == ",\r\n")
    ensures Unsplit(SplitStep(s, o, tail)) == Unsplit(s)
    decreases |s|
  {
    var pat := Single(o, tail);
    var rep := Split(o, tail);
    if s == [] {
    } else if pat <= s {
      var x := s[|pat|..];
      UnsplitReplace(x, o, tail);
      UnsplitSplit(o, tail, SplitStep(x, o, tail));
      assert s == pat + x;
      UnsplitSingle(o, tail, x);
    } else {
      var y := Replace(s[1..], pat, rep);
      assert SplitStep(s, o, tail) == [s[0]] + y;
      SplitAgrees(s, o, tail);
      if SplitAt(s) {
        assert y == ['\r'] + Replace(s[2..], pat, rep);
        assert Replace(s[2..], pat, rep) == ['\n'] + Replace(s[3..], pat, rep);
        assert ([s[0]] + y)[3..] == SplitStep(s[3..], o, tail);
        UnsplitReplace(s[3..], o, tail);
      } else {
        assert ([s[0]] + y)[1..] == y;
        UnsplitReplace(s[1..], o, tail);
      }
    }
  }

  /** Json.NET writes an empty object or array as `{}` or `[]`, never over two lines. */
  predicate NoSplitBlocks(s: string) {
    forall i :: 0 <= i < |s| ==> !SplitAt(s[i..])
  }

  lemma {:induction false} UnsplitIdentity(s: string)
    requires NoSplitBlocks(s)
    ensures Unsplit(s) == s
    decreases |s|
  {
    if s != [] {
      assert s[0..] == s;
      forall i | 0 <= i < |s[1..]| ensures !SplitAt(s[1..][i..]) {
        assert s[1..][i..] == s[i + 1..];
      }
      UnsplitIdentity(s[1..]);
    }
  }

  /**
   * The four replacements only put the brackets of empty blocks on two
   * lines: deleting those line breaks gives back the serialised text.
   */
  lemma SplitEmptyBlocksInverse(json: string)
    requires NoSplitBlocks(json)
    ensures Unsplit(SplitEmptyBlocks(json)) == json
  {
    var s1 := SplitStep(json, '{', CRLF);
    var s2 := SplitStep(s1, '{', ",\r\n");
    var s3 := SplitStep(s2, '[', CRLF);
    SplitEmptyBlocksBySteps(json);
    UnsplitReplace(json, '{', CRLF);
    UnsplitReplace(s1, '{', ",\r\n");
    UnsplitReplace(s2, '[', CRLF);
    UnsplitReplace(s3, '[', ",\r\n");
    UnsplitIdentity(json);
  }

  /** A replacement whose two sides differ only in white space keeps the ink. */
  lemma {:induction false} ReplaceInk(s: string, pat: string, rep: string)
    requires pat != [] && Ink(pat) == Ink(rep)
    ensures Ink(Replace(s, pat, rep)) == Ink(s)
    decreases |s|
  {
    if s != [] {
      if pat <= s {
        var x := s[|pat|..];
        ReplaceInk(x, pat, rep);
        InkAppend(rep, Replace(x, pat, rep));
        assert s == pat + x;
        InkAppend(pat, x);
      } else {
        ReplaceInk(s[1..], pat, rep);
        InkAppend([s[0]], Replace(s[1..], pat, rep));
        assert s == [s[0]] + s[1..];
        InkAppend([s[0]], s[1..]);
      }
    }
  }

  /** The two sides of a replacement differ only by a line break. */
  lemma SplitInk(o: char, tail: string)
    ensures Ink(Single(o, tail)) == Ink(Split(o, tail))
  {
    var c := Closer(o);
    InkAppend([o, c], tail);
    InkAppend([o] + CRLF + [c], tail);
    InkAppend([o] + CRLF, [c]);
    InkAppend([o], CRLF);
    InkAppend([o], [c]);
    assert [o, c] == [o] + [c];
    assert Ink(CRLF) == [] by {
      assert CRLF[1..] == ['\n'];
    }
  }

  lemma SplitStepInk(s: string, o: char, tail: string)
    ensures Ink(SplitStep(s, o, tail)) == Ink(s)
  {
    SplitInk(o, tail);
    ReplaceInk(s, Single(o, tail), Split(o, tail));
  }

  lemma SplitEmptyBlocksInk(json: string)
    ensures Ink(SplitEmptyBlocks(json)) == Ink(json)
  {
    var s1 := SplitStep(json, '{', CRLF);
    var s2 := SplitStep(s1, '{', ",\r\n");
    var s3 := SplitStep(s2, '[', CRLF);
    SplitEmptyBlocksBySteps(json);
    SplitStepInk(json, '{', CRLF);
    SplitStepInk(s1, '{', ",\r\n");
    SplitStepInk(s2, '[', CRLF);
    SplitStepInk(s3, '[', ",\r\n");
  }

  ////////////////////////////////////////////////////////////////////////
  // DeleteIndent

  /** Position of the first line terminator (CR or LF), or the length of the text. */
  function LineEnd(s: string): (i: nat)
    ensures i <= |s|
    ensures forall j :: 0 <= j < i ==> s[j] != '\r' && s[j] != '\n'
    ensures i < |s| ==> s[i] == '\r' || s[i] == '\n'
  {
    if s == [] || s[0] == '\r' || s[0] == '\n' then 0 else 1 + LineEnd(s[1..])
  }

  /** The line terminator `ReadLine` consumes: CR LF, a lone CR or LF, or none at the end of the text. */
  function Terminator(s: string): (b: string)
    ensures b == [] || b == ['\r'] || b == ['\n'] || b == CRLF
  {
    var i := LineEnd(s);
    if i == |s| then []
    else if s[i] == '\r' && i + 1 < |s| && s[i + 1] == '\n' then CRLF
    else [s[i]]
  }

  /**
   * `StringReader.ReadLine` on a non-empty remainder: the text up to the
   * first CR, LF or CR LF, and what follows that terminator.
   */
  function ReadLine(s: string): (r: (string, string))
    requires s != []
    ensures s == r.0 + Terminator(s) + r.1
    ensures NoBreaks(r.0)
    ensures |r.1| < |s|
  {
    var i := LineEnd(s);
    var b := Terminator(s);
    assert s == s[..i] + b + s[i + |b|..];
    (s[..i], s[i + |b|..])
  }

  /** The lines `ReadLine` returns before it returns null. */
  function Lines(s: string): seq<string>
    decreases |s|
  {
    if s == [] then [] else var r := ReadLine(s); [r.0] + Lines(r.1)
  }

  /** A line without breaks followed by CR LF is read as that line, and reading resumes after the CR LF. */
  lemma ReadLineBefore(a: string, rest: string)
    requires NoBreaks(a)
    ensures ReadLine(a + CRLF + rest) == (a, rest)
    ensures Lines(a + CRLF + rest) == [a] + Lines(rest)
  {
    var s := a + CRLF + rest;
    var i := LineEnd(s);
    assert s[|a|] == '\r' && s[|a| + 1] == '\n';
    assert i == |a|;
    assert s[..i] == a;
    assert s[i + 2..] == rest;
  }

  /** Text starting with CR LF reads as an empty line, then the lines after it. */
  lemma EmptyLineFirst(t: string)
    ensures Lines(CRLF + t) == [""] + Lines(t)
  {
    ReadLineBefore([], t);
    assert [] + CRLF + t == CRLF + t;
  }

  /** Regrouping the text does not change its lines. */
  lemma LinesRegroup(a: string, b: string, c: string, ls: seq<string>)
    requires Lines(a + (b + c)) == ls
    ensures Lines(a + b + c) == ls
  {
    AppendAssoc(a, b, c);
  }

  /** A last line without breaks is read whole. */
  lemma ReadLineLast(a: string)
    requires a != [] && NoBreaks(a)
    ensures ReadLine(a) == (a, [])
    ensures Lines(a) == [a]
  {
    assert LineEnd(a) == |a|;
    assert a[..|a|] == a;
  }

  /** `TrimStart()`: the line without its leading white space. */
  function TrimStart(l: string): (r: string)
    ensures |r| <= |l| && r == l[|l| - |r|..]
    ensures forall j :: 0 <= j < |l| - |r| ==> IsWhite(l[j])
    ensures r != [] ==> !IsWhite(r[0])
  {
    if l != [] && IsWhite(l[0]) then
      var r := TrimStart(l[1..]);
      assert l[1..][|l| - 1 - |r|..] == l[|l| - |r|..];
      r
    else
      l
  }

  /** The later lines, each trimmed and preceded by one space. */
  function Joined(ls: seq<string>): string {
    if ls == [] then [] else [' '] + TrimStart(ls[0]) + Joined(ls[1..])
  }

  /** The first line, then every later line trimmed and joined with a space. */
  function OneLine(m: string): string {
    var ls := Lines(m);
    if ls == [] then [] else ls[0] + Joined(ls[1..])
  }

  /** What `DeleteIndent` returns for the matched text `m`. */
  function IndentDeleted(m: string): string {
    OneLine(m) + CRLF
  }

  /** The first line of the match, then the later ones joined. */
  lemma OneLineCons(m: string)
    requires m != []
    ensures OneLine(m) == ReadLine(m).0 + Joined(Lines(ReadLine(m).1))
  {
    assert Lines(m) == [ReadLine(m).0] + Lines(ReadLine(m).1);
  }

  /** Reading one more line appends it, trimmed, after a space. */
  lemma JoinedCons(s: string)
    requires s != []
    ensures Joined(Lines(s)) == [' '] + TrimStart(ReadLine(s).0) + Joined(Lines(ReadLine(s).1))
  {
    assert Lines(s) == [ReadLine(s).0] + Lines(ReadLine(s).1);
  }

  lemma AppendAssoc(a: string, b: string, c: string)
    ensures a + (b + c) == (a + b) + c
  {
  }

  /** `DeleteIndent`: reads the match line by line, accumulating the single line it returns. */
  method DeleteIndent(m: string) returns (dst: string)
    ensures dst == IndentDeleted(m)
  {
    var rest := m;
    dst := [];
    ghost var goal := OneLine(m);
    if rest != [] {
      OneLineCons(m);
      var r := ReadLine(rest);
      dst, rest := r.0, r.1;
    }
    while rest != []
      invariant dst + Joined(Lines(rest)) == goal
      decreases |rest|
    {
      JoinedCons(rest);
      var r := ReadLine(rest);
      var piece := [' '] + TrimStart(r.0);
      AppendAssoc(dst, piece, Joined(Lines(r.1)));
      dst := dst + piece;
      rest := r.1;
    }
    assert Lines(rest) == [];
    assert dst + [] == dst;
    dst := dst + CRLF;
  }

  lemma {:induction false} InkOfWhite(s: string)
    requires forall j :: 0 <= j < |s| ==> IsWhite(s[j])
    ensures Ink(s) == []
  {
    if s != [] {
      InkOfWhite(s[1..]);
    }
  }

  /** A line read from the text, then the rest, carry all its ink. */
  lemma ReadLineInk(s: string)
    requires s != []
    ensures Ink(s) == Ink(ReadLine(s).0) + Ink(ReadLine(s).1)
  {
    var r := ReadLine(s);
    var b := Terminator(s);
    InkAppend(r.0 + b, r.1);
    InkAppend(r.0, b);
    InkOfWhite(b);
  }

  lemma TrimStartInk(l: string)
    ensures Ink(TrimStart(l)) == Ink(l)
  {
    if l != [] && IsWhite(l[0]) {
      TrimStartInk(l[1..]);
    }
  }

  /** The ink of a list of lines, in order. */
  function InkOfLines(ls: seq<string>): string {
    if ls == [] then [] else Ink(ls[0]) + InkOfLines(ls[1..])
  }

  lemma {:induction false} LinesInk(s: string)
    ensures Ink(s) == InkOfLines(Lines(s))
    decreases |s|
  {
    if s != [] {
      ReadLineInk(s);
      LinesInk(ReadLine(s).1);
    }
  }

  /** The space `Joined` puts before a line carries no ink. */
  lemma SpaceInk(t: string)
    ensures Ink([' '] + t) == Ink(t)
  {
    assert ([' '] + t)[1..] == t;
  }

  lemma {:induction false} JoinedInk(ls: seq<string>)
    ensures Ink(Joined(ls)) == InkOfLines(ls)
  {
    if ls != [] {
      var t := TrimStart(ls[0]);
      var x := [' '] + t;
      var j := Joined(ls[1..]);
      assert Joined(ls) == x + j;
      InkAppend(x, j);
      SpaceInk(t);
      TrimStartInk(ls[0]);
      JoinedInk(ls[1..]);
    }
  }

  /**
   * `DeleteIndent` removes only line breaks and leading white space: the
   * other characters of the match stay, in their order.
   */
  lemma IndentDeletedInk(m: string)
    ensures Ink(IndentDeleted(m)) == Ink(m)
  {
    LinesInk(m);
    var ls := Lines(m);
    InkAppend(OneLine(m), CRLF);
    if ls != [] {
      JoinedInk(ls[1..]);
      InkAppend(ls[0], Joined(ls[1..]));
    }
  }

  /** No line terminator occurs in `s`. */
  predicate NoBreaks(s: string) {
    forall j :: 0 <= j < |s| ==> s[j] != '\r' && s[j] != '\n'
  }

  lemma NoBreaksAppend(a: string, b: string)
    requires NoBreaks(a) && NoBreaks(b)
    ensures NoBreaks(a + b)
  {
    forall j | 0 <= j < |a + b| ensures (a + b)[j] != '\r' && (a + b)[j] != '\n' {
      if j >= |a| {
        assert (a + b)[j] == b[j - |a|];
      }
    }
  }

  lemma {:induction false} JoinedHasNoBreaks(ls: seq<string>)
    requires forall i :: 0 <= i < |ls| ==> NoBreaks(ls[i])
    ensures NoBreaks(Joined(ls))
  {
    if ls != [] {
      var t := TrimStart(ls[0]);
      var j := Joined(ls[1..]);
      assert NoBreaks(t) by {
        forall x | 0 <= x < |t| ensures t[x] != '\r' && t[x] != '\n' {
          assert t[x] == ls[0][|ls[0]| - |t| + x];
        }
      }
      JoinedHasNoBreaks(ls[1..]);
      NoBreaksAppend([' '], t);
      NoBreaksAppend([' '] + t, j);
    }
  }

  lemma {:induction false} LinesHaveNoBreaks(s: string)
    ensures forall i :: 0 <= i < |Lines(s)| ==> NoBreaks(Lines(s)[i])
    decreases |s|
  {
    if s != [] {
      LinesHaveNoBreaks(ReadLine(s).1);
    }
  }

  /** `DeleteIndent` returns exactly one line: no line break but the final one. */
  lemma IndentDeletedIsOneLine(m: string)
    ensures var r := IndentDeleted(m); |r| >= 2 && r[|r| - 2..] == CRLF
    ensures var r := IndentDeleted(m); forall j :: 0 <= j < |r| - 2 ==> r[j] != '\r' && r[j] != '\n'
  {
    var ls := Lines(m);
    LinesHaveNoBreaks(m);
    if ls != [] {
      JoinedHasNoBreaks(ls[1..]);
      NoBreaksAppend(ls[0], Joined(ls[1..]));
    }
    assert NoBreaks(OneLine(m));
  }

  ////////////////////////////////////////////////////////////////////////
  // The block pattern

  predicate IsBracket(ch: char) {
    ch == '{' || ch == '[' || ch == '}' || ch == ']'
  }

  /** A bracket ending its line: the characters the pattern's look-ahead refuses to cross. */
  predicate BracketEol(t: string, x: nat) {
    x + 3 <= |t| && IsBracket(t[x]) && t[x + 1] == '\r' && t[x + 2] == '\n'
  }

  /** The pattern's body `((?![\[\{\]\}]\r\n).)*` may cover `t[i..j]`. */
  predicate Clean(t: string, i: nat, j: nat) {
    forall x :: i <= x < j ==> !BracketEol(t, x)
  }

  predicate OpensAt(t: string, p: nat) {
    p + 3 <= |t| && IsOpener(t[p]) && t[p + 1] == '\r' && t[p + 2] == '\n'
  }

  /**
   * `t[p..e]` is in the language of the pattern: an opening bracket and a
   * line break, a body with no bracket ending a line, and the closing
   * bracket with a line break or with a comma and a line break.
   */
  predicate MatchesTo(t: string, p: nat, e: nat) {
    && OpensAt(t, p)
    && p + 6 <= e <= |t|
    && t[e - 2] == '\r' && t[e - 1] == '\n'
    && ((t[e - 3] == Closer(t[p]) && Clean(t, p + 3, e - 3))
        || (p + 7 <= e && t[e - 4] == Closer(t[p]) && t[e - 3] == ',' && Clean(t, p + 3, e - 4)))
  }

  /** The first bracket ending a line at or after `x`, or the length of the text. */
  function NextBracketEol(t: string, x: nat): (q: nat)
    requires x <= |t|
    ensures x <= q <= |t|
    ensures q < |t| ==> BracketEol(t, q)
    ensures Clean(t, x, q)
    decreases |t| - x
  {
    if x == |t| then |t|
    else if BracketEol(t, x) then x
    else NextBracketEol(t, x + 1)
  }

  predicate CommaCloseAt(t: string, b: nat, c: char) {
    b + 4 <= |t| && t[b] == c && t[b + 1] == ',' && t[b + 2] == '\r' && t[b + 3] == '\n'
  }

  /** The last `c,` line ending in `t[lo..hi]`. */
  function LastCommaClose(t: string, lo: nat, hi: nat, c: char): (r: Option<nat>)
    ensures r.Some? ==> lo <= r.value < hi && CommaCloseAt(t, r.value, c)
    ensures r.Some? ==> forall b :: r.value < b < hi ==> !CommaCloseAt(t, b, c)
    ensures r.None? ==> forall b :: lo <= b < hi ==> !CommaCloseAt(t, b, c)
    decreases hi
  {
    if hi <= lo then None
    else if CommaCloseAt(t, hi - 1, c) then Some(hi - 1)
    else LastCommaClose(t, lo, hi - 1, c)
  }

  /**
   * The end of the match the pattern makes at `p`, if any: the body runs
   * greedily up to the first bracket ending a line; if that bracket closes
   * the block the match ends after it, otherwise it backs off to the last
   * `},` or `],` line before it.
   */
  function MatchAt(t: string, p: nat): (r: Option<nat>)
    ensures r.Some? ==> p < r.value <= |t|
  {
    if !OpensAt(t, p) then None
    else
      var c := Closer(t[p]);
      var q := NextBracketEol(t, p + 3);
      if q < |t| && t[q] == c then Some(q + 3)
      else match LastCommaClose(t, p + 3, q, c)
        case Some(b) => Some(b + 4)
        case None => None
  }

  /**
   * `MatchAt` follows the pattern: what it returns is a match, it is the
   * longest match at `p` (the body is greedy), and when it returns nothing
   * no text starting at `p` matches.
   */
  lemma MatchAtSpec(t: string, p: nat)
    ensures MatchAt(t, p).Some? ==> MatchesTo(t, p, MatchAt(t, p).value)
    ensures MatchAt(t, p).Some? ==> forall e: nat :: MatchesTo(t, p, e) ==> e <= MatchAt(t, p).value
    ensures MatchAt(t, p).None? ==> forall e: nat :: !MatchesTo(t, p, e)
  {
    if OpensAt(t, p) {
      var c := Closer(t[p]);
      var q := NextBracketEol(t, p + 3);
      forall e: nat | MatchesTo(t, p, e)
        ensures MatchAt(t, p).Some? && e <= MatchAt(t, p).value
      {
        if t[e - 3] == c && Clean(t, p + 3, e - 3) {
          assert BracketEol(t, e - 3);
          assert q <= e - 3;
          assert q == e - 3;
        } else {
          var b := e - 4;
          assert CommaCloseAt(t, b, c);
          assert !BracketEol(t, b);
          assert b < q;
          assert !BracketEol(t, b + 1) && !BracketEol(t, b + 2) && !BracketEol(t, b + 3);
          assert b + 4 <= q;
        }
      }
    }
  }

  ////////////////////////////////////////////////////////////////////////
  // The replacement pass

  /**
   * `Regex.Replace(json, DeleteIndent)` from position `p`: a match is
   * tried at each position, a match found is replaced by its
   * `DeleteIndent` and the scan resumes after it; the text is scanned
   * once.
   */
  function CollapseFrom(t: string, p: nat): string
    requires p <= |t|
    decreases |t| - p
  {
    if p == |t| then []
    else match MatchAt(t, p)
      case Some(e) => IndentDeleted(t[p..e]) + CollapseFrom(t, e)
      case None => [t[p]] + CollapseFrom(t, p + 1)
  }

  /** `WriteText` up to the file dialog: the text it writes for the serialised `json`. */
  function FormatText(json: string): string {
    CollapseFrom(SplitEmptyBlocks(json), 0)
  }

  /** Where the pattern matches at `p`, the match's rewrite comes first. */
  lemma CollapseMatched(t: string, p: nat, e: nat)
    requires p < |t| && MatchAt(t, p) == Some(e)
    ensures e <= |t| && CollapseFrom(t, p) == IndentDeleted(t[p..e]) + CollapseFrom(t, e)
  {
  }

  /** Where the pattern does not match at `p`, the character there is kept. */
  lemma CollapseUnmatched(t: string, p: nat)
    requires p < |t| && MatchAt(t, p).None?
    ensures CollapseFrom(t, p) == [t[p]] + CollapseFrom(t, p + 1)
  {
  }

  /** Texts with the same ink, concatenated, have the same ink. */
  lemma InkConcat(c: string, a: string, b: string, s: string, a': string, b': string)
    requires c == a + b && s == a' + b'
    requires Ink(a) == Ink(a') && Ink(b) == Ink(b')
    ensures Ink(c) == Ink(s)
  {
    InkAppend(a, b);
    InkAppend(a', b');
  }

  lemma SliceSplit(t: string, p: nat, e: nat)
    requires p <= e <= |t|
    ensures t[p..] == t[p..e] + t[e..]
  {
  }

  /** A match rewritten keeps the ink, given that the rest of the scan does. */
  lemma MatchedInk(t: string, p: nat, e: nat)
    requires p < |t| && MatchAt(t, p) == Some(e)
    requires Ink(CollapseFrom(t, e)) == Ink(t[e..])
    ensures Ink(CollapseFrom(t, p)) == Ink(t[p..])
  {
    CollapseMatched(t, p, e);
    IndentDeletedInk(t[p..e]);
    SliceSplit(t, p, e);
    InkConcat(CollapseFrom(t, p), IndentDeleted(t[p..e]), CollapseFrom(t, e), t[p..], t[p..e], t[e..]);
  }

  /** A character kept keeps the ink, given that the rest of the scan does. */
  lemma UnmatchedInk(t: string, p: nat)
    requires p < |t| && MatchAt(t, p).None?
    requires Ink(CollapseFrom(t, p + 1)) == Ink(t[p + 1..])
    ensures Ink(CollapseFrom(t, p)) == Ink(t[p..])
  {
    CollapseUnmatched(t, p);
    SliceSplit(t, p, p + 1);
    assert t[p..p + 1] == [t[p]];
    InkConcat(CollapseFrom(t, p), [t[p]], CollapseFrom(t, p + 1), t[p..], [t[p]], t[p + 1..]);
  }

  lemma {:induction false} CollapseInk(t: string, p: nat)
    requires p <= |t|
    ensures Ink(CollapseFrom(t, p)) == Ink(t[p..])
    decreases |t| - p
  {
    if p < |t| {
      match MatchAt(t, p)
      case Some(e) =>
        CollapseInk(t, e);
        MatchedInk(t, p, e);
      case None =>
        CollapseInk(t, p + 1);
        UnmatchedInk(t, p);
    }
  }

  /** Text in which the pattern matches nowhere is written unchanged. */
  lemma {:induction false} CollapseWithoutMatches(t: string, p: nat)
    requires p <= |t|
    requires forall x :: p <= x < |t| ==> MatchAt(t, x).None?
    ensures CollapseFrom(t, p) == t[p..]
    decreases |t| - p
  {
    if p < |t| {
      CollapseWithoutMatches(t, p + 1);
      assert t[p..] == [t[p]] + t[p + 1..];
    }
  }

  /**
   * The formatting is cosmetic: apart from white space, `WriteText`
   * writes the characters Json.NET produced, in the same order.
   */
  lemma FormatTextInk(json: string)
    ensures Ink(FormatText(json)) == Ink(json)
  {
    var s := SplitEmptyBlocks(json);
    SplitEmptyBlocksInk(json);
    CollapseInk(s, 0);
    assert s[0..] == s;
  }

  /** An inner array closed by `],` inside an outer array closed by `],` inside an object. */
  const NestedArrays: string := "[\r\n[\r\n1\r\n],\r\n2\r\n],\r\n}\r\n"

  /** In `NestedArrays`, the body after the inner opener runs to the object's closing line. */
  lemma NestedArraysScan()
    ensures NextBracketEol(NestedArrays, 6) == 20
  {
    var t := NestedArrays;
    assert BracketEol(t, 20) && NextBracketEol(t, 20) == 20;
    assert NextBracketEol(t, 19) == 20;
    assert NextBracketEol(t, 18) == 20;
    assert NextBracketEol(t, 17) == 20;
    assert NextBracketEol(t, 16) == 20;
    assert NextBracketEol(t, 15) == 20;
    assert NextBracketEol(t, 14) == 20;
    assert NextBracketEol(t, 13) == 20;
    assert NextBracketEol(t, 12) == 20;
    assert NextBracketEol(t, 11) == 20;
    assert NextBracketEol(t, 10) == 20;
    assert NextBracketEol(t, 9) == 20;
    assert NextBracketEol(t, 8) == 20;
    assert NextBracketEol(t, 7) == 20;
    assert NextBracketEol(t, 6) == 20;
  }

  /** In `NestedArrays`, backing off from that line finds the outer array's `],`. */
  lemma NestedArraysBackOff()
    ensures LastCommaClose(NestedArrays, 6, 20, ']') == Some(16)
  {
    var t := NestedArrays;
    assert LastCommaClose(t, 6, 17, ']') == Some(16);
    assert LastCommaClose(t, 6, 18, ']') == Some(16);
    assert LastCommaClose(t, 6, 19, ']') == Some(16);
  }

  /**
   * The pattern's body may cross a `],` line: inside an array that ends
   * a containing object, the match at an inner array runs on past the
   * inner array's own closing line to the outer one.
   */
  lemma MatchRunsPastItsBlock()
    ensures MatchesTo(NestedArrays, 3, 13) && MatchAt(NestedArrays, 3) == Some(20)
  {
    NestedArraysScan();
    NestedArraysBackOff();
  }
}

/** What the whole-text lexer does with a Rust text, told piece by piece on its characters: where each comment, string
    and character literal ends, what is copied, and that what follows is read as if the text began there.  Every text
    is made of these pieces. */
module LexerLaws {
  import opened RustText
  import opened StripNoncode
  import BraceScan

  predicate IsWordChar(c: char) {
    'a' <= c <= 'z' || 'A' <= c <= 'Z' || '0' <= c <= '9' || c == '_'
  }

  // ---- what follows is read afresh ------------------------------------------------------------------------

  /** No word runs from one text into the other. */
  predicate Apart(pre: string, s: string) {
    pre == "" || s == "" || !IsWordChar(pre[|pre| - 1]) || !IsWordChar(s[0])
  }

  lemma {:induction false} SeekShift(pre: string, s: string, c: char, i: nat)
    requires i <= |s|
    ensures Seek(pre + s, c, |pre| + i) == |pre| + Seek(s, c, i)
    decreases |s| - i
  {
    if i == |s| {
    } else {
      assert (pre + s)[|pre| + i] == s[i];
      if s[i] != c { SeekShift(pre, s, c, i + 1); }
    }
  }

  lemma {:induction false} HashRunShift(pre: string, s: string, i: nat)
    requires i <= |s|
    ensures HashRun(pre + s, |pre| + i) == |pre| + HashRun(s, i)
    decreases |s| - i
  {
    if i == |s| {
    } else {
      assert (pre + s)[|pre| + i] == s[i];
      if s[i] == '#' { HashRunShift(pre, s, i + 1); }
    }
  }

  lemma {:induction false} StringEndShift(pre: string, s: string, i: nat)
    ensures StringEnd(pre + s, |pre| + i) == |pre| + StringEnd(s, i)
    decreases if i < |s| then |s| - i else 0
  {
    if i >= |s| {
    } else {
      assert (pre + s)[|pre| + i] == s[i];
      if s[i] == '\\' {
        StringEndShift(pre, s, i + 2);
      } else if s[i] != '"' {
        StringEndShift(pre, s, i + 1);
      }
    }
  }

  lemma HashesShift(pre: string, s: string, i: nat, n: nat)
    ensures HashesAt(pre + s, |pre| + i, n) <==> HashesAt(s, i, n)
  {
    if HashesAt(pre + s, |pre| + i, n) {
      forall k | i <= k < i + n ensures s[k] == '#' { assert (pre + s)[|pre| + k] == s[k]; }
    }
  }

  lemma {:induction false} RawEndShift(pre: string, s: string, i: nat, n: nat)
    requires i <= |s|
    ensures RawEnd(pre + s, |pre| + i, n) == |pre| + RawEnd(s, i, n)
    decreases |s| - i
  {
    if i == |s| {
    } else {
      assert (pre + s)[|pre| + i] == s[i];
      HashesShift(pre, s, i + 1, n);
      hide HashesAt;
      if !(s[i] == '"' && HashesAt(s, i + 1, n)) { RawEndShift(pre, s, i + 1, n); }
    }
  }

  lemma PairShift(pre: string, s: string, i: nat, c: char, d: char)
    ensures PairAt(pre + s, |pre| + i, c, d) <==> PairAt(s, i, c, d)
  {
  }

  lemma {:induction false} BlockEndShift(pre: string, s: string, i: nat, depth: int)
    requires i <= |s|
    ensures BlockEnd(pre + s, |pre| + i, depth) == |pre| + BlockEnd(s, i, depth)
    decreases |s| - i
  {
    PairShift(pre, s, i, '/', '*');
    PairShift(pre, s, i, '*', '/');
    if i == |s| {
    } else if PairAt(s, i, '/', '*') {
      BlockEndShift(pre, s, i + 2, depth + 1);
    } else if PairAt(s, i, '*', '/') {
      if depth > 1 { BlockEndShift(pre, s, i + 2, depth - 1); }
    } else {
      BlockEndShift(pre, s, i + 1, depth);
    }
  }

  lemma CharLiteralShift(pre: string, s: string, i: nat)
    requires i < |s|
    ensures CharLiteralEnd(pre + s, |pre| + i) == |pre| + CharLiteralEnd(s, i)
  {
    PairShift(pre, s, i, '\'', '\\');
    if i + 2 <= |s| { SeekShift(pre, s, '\'', i + 2); }
  }

  lemma RawHereShift(pre: string, s: string, i: nat)
    requires i < |s| && s[i] == 'r' && Apart(pre, s)
    ensures RawStringHere(pre + s, |pre| + i) <==> RawStringHere(s, i)
  {
    var text, h := pre + s, HashRun(s, i + 1);
    hide HashRun, HashesAt;
    HashRunShift(pre, s, i + 1);
    assert h < |s| ==> text[|pre| + h] == s[h];
    assert i > 0 ==> text[|pre| + i - 1] == s[i - 1];
    assert i > 1 ==> text[|pre| + i - 2] == s[i - 2];
    assert pre != "" ==> text[|pre| - 1] == pre[|pre| - 1];
  }

  lemma BlankedShift(pre: string, s: string, i: nat)
    requires i < |s| && Apart(pre, s)
    ensures (pre + s)[|pre| + i] == s[i] && (Blanked(pre + s, |pre| + i) <==> Blanked(s, i))
    ensures PairAt(pre + s, |pre| + i, '/', '/') <==> PairAt(s, i, '/', '/')
    ensures PairAt(pre + s, |pre| + i, '/', '*') <==> PairAt(s, i, '/', '*')
    ensures s[i] == 'r' ==> (RawStringHere(pre + s, |pre| + i) <==> RawStringHere(s, i))
  {
    hide RawStringHere, Apart;
    PairShift(pre, s, i, '/', '/');
    PairShift(pre, s, i, '/', '*');
    if s[i] == 'r' { RawHereShift(pre, s, i); }
  }

  lemma PieceShift(pre: string, s: string, i: nat)
    requires i < |s| && Apart(pre, s)
    ensures Blanked(pre + s, |pre| + i) <==> Blanked(s, i)
    ensures PieceEnd(pre + s, |pre| + i) == |pre| + PieceEnd(s, i)
  {
    hide Seek, CharLiteralEnd, StringEnd, BlockEnd, RawEnd, HashRun, RawStringHere, PairAt, Blanked, Apart, HashesAt;
    BlankedShift(pre, s, i);
    if PairAt(s, i, '/', '/') {
      SeekShift(pre, s, '\n', i);
    } else if PairAt(s, i, '/', '*') {
      PairFits(s, i);
      BlockEndShift(pre, s, i + 2, 1);
    } else if s[i] == '"' {
      StringEndShift(pre, s, i + 1);
    } else if s[i] == 'r' && RawStringHere(s, i) {
      RawQuote(s, i);
      HashRunShift(pre, s, i + 1);
      RawEndShift(pre, s, HashRun(s, i + 1) + 1, HashRun(s, i + 1) - (i + 1));
    } else if s[i] == '\'' {
      CharLiteralShift(pre, s, i);
    }
  }

  lemma PairFits(s: string, i: nat)
    requires PairAt(s, i, '/', '*')
    ensures i + 2 <= |s|
  {
  }

  lemma RawQuote(s: string, i: nat)
    requires i < |s| && RawStringHere(s, i)
    ensures HashRun(s, i + 1) < |s|
  {
  }

  lemma PieceSame(pre: string, s: string, i: nat)
    requires i < |s| && Apart(pre, s)
    ensures Piece(pre + s, |pre| + i) == Piece(s, i) && PieceEnd(pre + s, |pre| + i) == |pre| + PieceEnd(s, i)
  {
    hide PieceEnd, Blanked;
    var text, e := pre + s, PieceEnd(s, i);
    PieceShift(pre, s, i);
    assert text[|pre| + i..|pre| + e] == s[i..e];
    assert text[|pre| + i] == s[i];
  }

  lemma {:induction false} StripShift(pre: string, s: string, i: nat)
    requires i <= |s| && Apart(pre, s)
    ensures StripFrom(pre + s, |pre| + i) == StripFrom(s, i)
    decreases |s| - i
  {
    hide PieceEnd, Piece, Apart;
    if i == |s| {
    } else {
      PieceSame(pre, s, i);
      StripShift(pre, s, PieceEnd(s, i));
    }
  }

  /** A piece is blanked, and what follows is read afresh. */
  lemma FirstPiece(piece: string, rest: string)
    requires piece != "" && Apart(piece, rest)
    requires Blanked(piece + rest, 0) && PieceEnd(piece + rest, 0) == |piece|
    ensures Strip(piece + rest) == Blank(piece) + Strip(rest)
  {
    hide PieceEnd, Blanked;
    var text := piece + rest;
    assert text[0..|piece|] == piece;
    StripShift(piece, rest, 0);
  }

  // ---- comments --------------------------------------------------------------------------------------------

  /** A line comment is blanked up to the end of its line. */
  lemma LineComment(line: string, rest: string)
    requires forall k | 0 <= k < |line| :: line[k] != '\n'
    requires rest == "" || rest[0] == '\n'
    ensures Strip("//" + line + rest) == Blank("//" + line) + Strip(rest)
  {
    var piece := "//" + line;
    var text := piece + rest;
    assert text[0] == '/' && text[1] == '/';
    forall k | 0 <= k < |piece| ensures text[k] != '\n' {
      if k >= 2 { assert text[k] == line[k - 2]; }
    }
    assert rest != "" ==> text[|piece|] == '\n';
    assert Seek(text, '\n', 0) == |piece|;
    FirstPiece(piece, rest);
  }

  /** A text read mark by mark: two characters that open or close a comment, or one that does neither with the next. */
  datatype Mark = Opener | Closer | Other(c: char)

  predicate ReadsAs(text: string, marks: seq<Mark>)
    decreases marks
  {
    if marks == [] then text == ""
    else
      match marks[0]
      case Opener => |text| >= 2 && text[0] == '/' && text[1] == '*' && ReadsAs(text[2..], marks[1..])
      case Closer => |text| >= 2 && text[0] == '*' && text[1] == '/' && ReadsAs(text[2..], marks[1..])
      case Other(c) =>
        && |text| >= 1 && text[0] == c && ReadsAs(text[1..], marks[1..])
        && !(|text| >= 2 && ((text[0] == '/' && text[1] == '*') || (text[0] == '*' && text[1] == '/')))
  }

  /** Openers minus closers. */
  function Level(marks: seq<Mark>): int {
    if marks == [] then 0
    else Level(marks[..|marks| - 1]) + match marks[|marks| - 1]
                                       case Opener => 1
                                       case Closer => -1
                                       case Other(_) => 0
  }

  /** From its opener on, openers minus closers come to zero at the end and not before. */
  ghost predicate IsBlockComment(comment: string, marks: seq<Mark>) {
    && ReadsAs(comment, marks) && marks != [] && marks[0] == Opener && Level(marks) == 0
    && forall k | 0 < k < |marks| :: Level(marks[..k]) > 0
  }

  /** From its opener on, openers minus closers never come to zero. */
  ghost predicate IsUnclosedComment(text: string, marks: seq<Mark>) {
    && ReadsAs(text, marks) && marks != [] && marks[0] == Opener
    && forall k | 0 < k <= |marks| :: Level(marks[..k]) > 0
  }

  lemma LevelNext(marks: seq<Mark>, k: nat)
    requires k < |marks|
    ensures Level(marks[..k + 1]) == Level(marks[..k]) + match marks[k]
                                                         case Opener => 1
                                                         case Closer => -1
                                                         case Other(_) => 0
  {
    assert marks[..k + 1][..k] == marks[..k];
  }

  /** Where the comment ends that is open at mark `k`, which starts at `i`. */
  lemma {:induction false} MarksEnd(text: string, rest: string, i: nat, marks: seq<Mark>, k: nat)
    requires i <= |text| && 0 < k <= |marks| && ReadsAs(text[i..], marks[k..])
    requires forall j | 0 < j < |marks| :: Level(marks[..j]) > 0
    requires Level(marks) == 0 || (rest == "" && Level(marks) > 0)
    requires k == |marks| ==> Level(marks) > 0
    ensures BlockEnd(text + rest, i, Level(marks[..k])) == |text|
    decreases |marks| - k
  {
    var all, depth := text + rest, Level(marks[..k]);
    assert marks[..|marks|] == marks;
    if k == |marks| {
      assert i == |text|;
    } else {
      LevelNext(marks, k);
      assert marks[k..][1..] == marks[k + 1..] && marks[k..][0] == marks[k];
      var w := if marks[k].Other? then 1 else 2;
      assert text[i..][w..] == text[i + w..];
      assert all[i] == text[i..][0] && (i + 1 < |text| ==> all[i + 1] == text[i..][1]);
      if marks[k] == Closer && k + 1 == |marks| && Level(marks) == 0 {
        assert i + 2 == |text|;
      } else {
        LastIsCloser(marks);
        MarksEnd(text, rest, i + w, marks, k + 1);
      }
    }
  }

  /** A comment that closes ends in a closer. */
  lemma LastIsCloser(marks: seq<Mark>)
    requires forall j | 0 < j < |marks| :: Level(marks[..j]) > 0
    ensures |marks| > 1 && Level(marks) == 0 ==> marks[|marks| - 1] == Closer
  {
  }

  /** A block comment is blanked to the closer that brings openers minus closers to zero, and what follows is read
      afresh. */
  lemma BlockComment(comment: string, marks: seq<Mark>, rest: string)
    requires IsBlockComment(comment, marks)
    ensures Strip(comment + rest) == Blank(comment) + Strip(rest)
  {
    var text := comment + rest;
    LevelNext(marks, 0);
    assert marks[..0] == [] && marks[0..] == marks && comment[0..] == comment;
    assert |marks| > 1 by { assert marks[..1] == marks[..0 + 1]; assert marks[..|marks|] == marks; }
    assert comment[2..] == comment[0..][2..];
    assert text[0] == '/' && text[1] == '*';
    MarksEnd(comment, rest, 2, marks, 1);
    EndsInSlash(comment, marks);
    FirstPiece(comment, rest);
  }

  lemma {:induction false} EndsInSlash(text: string, marks: seq<Mark>)
    requires ReadsAs(text, marks) && marks != [] && marks[|marks| - 1] == Closer
    ensures text != "" && text[|text| - 1] == '/'
    decreases marks
  {
    if |marks| == 1 {
    } else {
      var w := if marks[0].Other? then 1 else 2;
      EndsInSlash(text[w..], marks[1..]);
    }
  }

  /** A comment that never closes is blanked to the end of the text. */
  lemma UnclosedComment(text: string, marks: seq<Mark>)
    requires IsUnclosedComment(text, marks)
    ensures Strip(text) == Blank(text)
  {
    LevelNext(marks, 0);
    assert marks[..0] == [] && marks[0..] == marks && text[0..] == text && marks[..|marks|] == marks;
    MarksEnd(text, "", 2, marks, 1);
    assert text + "" == text && text[0..|text|] == text;
    assert StripFrom(text, |text|) == "";
  }

  /** Every text can be read mark by mark. */
  lemma {:induction false} MarksOf(text: string) returns (marks: seq<Mark>)
    ensures ReadsAs(text, marks)
  {
    if text == "" {
      marks := [];
    } else if |text| >= 2 && ((text[0] == '/' && text[1] == '*') || (text[0] == '*' && text[1] == '/')) {
      var rest := MarksOf(text[2..]);
      marks := [if text[0] == '/' then Opener else Closer] + rest;
      assert marks[1..] == rest;
    } else {
      var rest := MarksOf(text[1..]);
      marks := [Other(text[0])] + rest;
      assert marks[1..] == rest;
    }
  }

  /** Cut a text after its first `k` marks. */
  lemma {:induction false} CutMarks(text: string, marks: seq<Mark>, k: nat) returns (a: string, b: string)
    requires ReadsAs(text, marks) && k <= |marks|
    ensures text == a + b && ReadsAs(a, marks[..k]) && (k == |marks| ==> b == "")
    decreases k
  {
    if k == 0 {
      a, b := "", text;
    } else {
      var w := if marks[0].Other? then 1 else 2;
      var c, d := CutMarks(text[w..], marks[1..], k - 1);
      a, b := text[..w] + c, d;
      assert text == a + b;
      assert marks[..k][1..] == marks[1..][..k - 1] && a[w..] == c && marks[..k][0] == marks[0];
      assert forall j | 0 <= j < |a| :: a[j] == text[j];
    }
  }

  /** Every text that begins like a comment is one followed by the rest, or one that never closes. */
  lemma EveryComment(text: string) returns (comment: string, marks: seq<Mark>, rest: string)
    requires |text| >= 2 && text[0] == '/' && text[1] == '*'
    ensures text == comment + rest
    ensures IsBlockComment(comment, marks) || (rest == "" && IsUnclosedComment(comment, marks))
  {
    var all := MarksOf(text);
    var k := 1;
    LevelNext(all, 0);
    while k < |all| && Level(all[..k]) > 0
      invariant 1 <= k <= |all| && Level(all[..k]) >= 0
      invariant forall j | 0 < j < k :: Level(all[..j]) > 0
    {
      LevelNext(all, k);
      k := k + 1;
    }
    comment, rest := CutMarks(text, all, k);
    marks := all[..k];
    assert forall j | 0 <= j <= k :: marks[..j] == all[..j];
  }

  // ---- strings -----------------------------------------------------------------------------------------------

  /** The inside of a string: no quote but after a backslash, and no backslash left without the character it escapes. */
  predicate IsStringBody(body: string) {
    || body == ""
    || (body[0] == '\\' && |body| >= 2 && IsStringBody(body[2..]))
    || (body[0] != '\\' && body[0] != '"' && IsStringBody(body[1..]))
  }

  /** A string that never closes. */
  predicate IsOpenBody(body: string) {
    || body == ""
    || (body[0] == '\\' && (|body| == 1 || IsOpenBody(body[2..])))
    || (body[0] != '\\' && body[0] != '"' && IsOpenBody(body[1..]))
  }

  lemma {:induction false} StringBodyEnd(body: string, rest: string)
    requires IsStringBody(body)
    ensures StringEnd(body + "\"" + rest, 0) == |body| + 1
  {
    var text := body + "\"" + rest;
    if body == "" {
    } else {
      assert text[0] == body[0];
      var w := if body[0] == '\\' then 2 else 1;
      StringBodyEnd(body[w..], rest);
      assert text == body[..w] + (body[w..] + "\"" + rest);
      StringEndShift(body[..w], body[w..] + "\"" + rest, 0);
    }
  }

  /** A string is blanked through its closing quote, and what follows is read afresh. */
  lemma StringLiteral(body: string, rest: string)
    requires IsStringBody(body)
    ensures Strip("\"" + body + "\"" + rest) == Blank("\"" + body + "\"") + Strip(rest)
  {
    var piece := "\"" + body + "\"";
    var text := piece + rest;
    StringBodyEnd(body, rest);
    assert text == "\"" + (body + "\"" + rest);
    StringEndShift("\"", body + "\"" + rest, 0);
    FirstPiece(piece, rest);
  }

  lemma {:induction false} OpenBodyEnd(body: string)
    requires IsOpenBody(body)
    ensures StringEnd(body, 0) == |body|
  {
    if body == "" {
    } else {
      var w := if body[0] == '\\' && |body| >= 2 then 2 else 1;
      if !(body[0] == '\\' && |body| == 1) {
        OpenBodyEnd(body[w..]);
        assert body == body[..w] + body[w..];
        StringEndShift(body[..w], body[w..], 0);
      }
    }
  }

  lemma OpenString(body: string)
    requires IsOpenBody(body)
    ensures Strip("\"" + body) == Blank("\"" + body)
  {
    var text := "\"" + body;
    OpenBodyEnd(body);
    StringEndShift("\"", body, 0);
    assert text + "" == text;
    FirstPiece(text, "");
  }

  // ---- raw strings -------------------------------------------------------------------------------------------

  function Hashes(n: nat): string {
    seq(n, _ => '#')
  }

  /** The text closes a raw string with `n` hashes at `k`. */
  predicate ClosesRawAt(text: string, k: nat, n: nat) {
    k + n < |text| && text[k] == '"' && forall j | k < j <= k + n :: text[j] == '#'
  }

  lemma {:induction false} RawBodyEnd(text: string, i: nat, e: nat, n: nat)
    requires i <= e <= |text| && (e < |text| ==> ClosesRawAt(text, e, n))
    requires forall k | i <= k < e :: !ClosesRawAt(text, k, n)
    ensures RawEnd(text, i, n) == if e < |text| then e + 1 + n else |text|
    decreases e - i
  {
    if i == e {
    } else {
      assert text[i] == '"' && HashesAt(text, i + 1, n) ==> ClosesRawAt(text, i, n);
      RawBodyEnd(text, i + 1, e, n);
    }
  }

  /** A raw string opens at `p`, the front of the text or after a `b` there, and ends with the first closer. */
  lemma RawPieceAt(text: string, p: nat, n: nat, e: nat)
    requires p == 0 || (p == 1 && text != "" && text[0] == 'b')
    requires p + n + 2 <= e <= |text| && text[p] == 'r' && text[p + n + 1] == '"'
    requires forall k | p < k < p + n + 1 :: text[k] == '#'
    requires e < |text| ==> ClosesRawAt(text, e, n)
    requires forall k | p + n + 2 <= k < e :: !ClosesRawAt(text, k, n)
    ensures Blanked(text, p) && PieceEnd(text, p) == if e < |text| then e + 1 + n else |text|
  {
    assert HashRun(text, p + 1) == p + n + 1;
    RawBodyEnd(text, p + n + 2, e, n);
  }

  /** A raw string as it is written. */
  function RawText(n: nat, body: string): string {
    "r" + Hashes(n) + "\"" + body + "\"" + Hashes(n)
  }

  lemma RawTextAt(pre: string, n: nat, body: string, rest: string)
    requires |pre| <= 1 && forall k | 0 <= k < |body| :: !ClosesRawAt(body, k, n)
    ensures
      var text, p := pre + RawText(n, body) + rest, |pre|;
      var e := p + n + 2 + |body|;
      && |RawText(n, body)| == 2 * n + |body| + 3 && e < |text| && text[p] == 'r' && text[p + n + 1] == '"'
      && (forall k | p < k < p + n + 1 :: text[k] == '#') && ClosesRawAt(text, e, n)
      && (forall k | p + n + 2 <= k < e :: !ClosesRawAt(text, k, n))
  {
    var text, p := pre + RawText(n, body) + rest, |pre|;
    var e := p + n + 2 + |body|;
    assert forall k | 0 <= k < |body| :: text[p + n + 2 + k] == body[k];
    assert text[e] == '"';
    forall k | p + n + 2 <= k < e ensures !ClosesRawAt(text, k, n) {
      var b := k - (p + n + 2);
      if ClosesRawAt(text, k, n) {
        assert k + n < e;
        assert forall j | b < j <= b + n :: body[j] == text[p + n + 2 + j];
        assert ClosesRawAt(body, b, n);
      }
    }
  }

  lemma RawLast(n: nat, body: string)
    ensures RawText(n, body) != "" && !IsWordChar(RawText(n, body)[|RawText(n, body)| - 1])
  {
    var raw := RawText(n, body);
    assert raw[|raw| - 1] == if n == 0 then '"' else '#';
  }

  lemma RawFront(n: nat, body: string, rest: string)
    requires forall k | 0 <= k < |body| :: !ClosesRawAt(body, k, n)
    ensures RawText(n, body) != ""
    ensures Blanked(RawText(n, body) + rest, 0) && PieceEnd(RawText(n, body) + rest, 0) == |RawText(n, body)|
  {
    hide *;
    var text := RawText(n, body) + rest;
    RawTextAt("", n, body, rest);
    assert "" + RawText(n, body) + rest == text;
    RawPieceAt(text, 0, n, n + 2 + |body|);
  }

  /** A raw string is blanked through the first quote followed by its hashes, and what follows is read afresh. */
  lemma RawString(n: nat, body: string, rest: string)
    requires forall k | 0 <= k < |body| :: !ClosesRawAt(body, k, n)
    ensures Strip(RawText(n, body) + rest) == Blank(RawText(n, body)) + Strip(rest)
  {
    hide *;
    var piece := RawText(n, body);
    RawFront(n, body, rest);
    RawLast(n, body);
    ApartAfter(piece, rest);
    FirstPiece(piece, rest);
  }

  lemma ApartAfter(piece: string, rest: string)
    requires piece != "" && !IsWordChar(piece[|piece| - 1])
    ensures Apart(piece, rest)
  {
  }

  lemma ByteCopied(text: string)
    requires text != "" && text[0] == 'b'
    ensures Strip(text) == "b" + StripFrom(text, 1)
  {
    assert !Blanked(text, 0) && PieceEnd(text, 0) == 1;
  }

  lemma PieceThen(text: string, i: nat, e: nat)
    requires i < |text| && Blanked(text, i) && PieceEnd(text, i) == e
    ensures StripFrom(text, i) == Blank(text[i..e]) + StripFrom(text, e)
  {
    hide Blanked, PieceEnd;
  }

  /** A byte raw string keeps its `b`. */
  lemma ByteRawString(n: nat, body: string, rest: string)
    requires forall k | 0 <= k < |body| :: !ClosesRawAt(body, k, n)
    ensures Strip("b" + RawText(n, body) + rest) == "b" + Blank(RawText(n, body)) + Strip(rest)
  {
    hide RawText, Strip, StripFrom, Blank, Blanked, PieceEnd, ClosesRawAt;
    var raw, piece := RawText(n, body), "b" + RawText(n, body);
    var text := piece + rest;
    RawTextAt("b", n, body, rest);
    RawPieceAt(text, 1, n, n + 3 + |body|);
    RawLast(n, body);
    ByteCopied(text);
    PieceThen(text, 1, |piece|);
    assert text[1..|piece|] == raw;
    AfterRaw(piece, rest);
    assert "b" + (Blank(raw) + Strip(rest)) == "b" + Blank(raw) + Strip(rest);
  }

  lemma AfterRaw(piece: string, rest: string)
    requires piece != "" && !IsWordChar(piece[|piece| - 1])
    ensures StripFrom(piece + rest, |piece|) == Strip(rest)
  {
    StripShift(piece, rest, 0);
  }

  /** A raw string that never closes is blanked to the end of the text. */
  lemma OpenRawString(n: nat, body: string)
    requires forall k | 0 <= k < |body| :: !ClosesRawAt(body, k, n)
    ensures Strip("r" + Hashes(n) + "\"" + body) == Blank("r" + Hashes(n) + "\"" + body)
  {
    var text := "r" + Hashes(n) + "\"" + body;
    assert forall k | 0 <= k < |body| :: body[k] == text[n + 2 + k];
    forall k | n + 2 <= k < |text| ensures !ClosesRawAt(text, k, n) {
      assert ClosesRawAt(text, k, n) ==> ClosesRawAt(body, k - (n + 2), n);
    }
    RawPieceAt(text, 0, n, |text|);
    assert text + "" == text;
    FirstPiece(text, "");
  }

  // ---- ticks -------------------------------------------------------------------------------------------------

  predicate NoTick(s: string) {
    forall k | 0 <= k < |s| :: s[k] != '\''
  }

  /** An escape runs to the next tick. */
  lemma EscapedChar(body: string, rest: string)
    requires NoTick(body)
    ensures Strip("'\\" + body + "'" + rest) == Blank("'\\" + body + "'") + Strip(rest)
  {
    var piece := "'\\" + body + "'";
    var text := piece + rest;
    assert text[0] == '\'' && text[1] == '\\';
    forall k | 2 <= k < |body| + 2 ensures text[k] != '\'' { assert text[k] == body[k - 2]; }
    assert text[|body| + 2] == '\'';
    assert Seek(text, '\'', 2) == |body| + 2;
    FirstPiece(piece, rest);
  }

  /** Any other character between two ticks is a literal. */
  lemma PlainChar(c: char, rest: string)
    requires c != '\\'
    ensures Strip(['\'', c, '\''] + rest) == Blank(['\'', c, '\'']) + Strip(rest)
  {
    var piece := ['\'', c, '\''];
    var text := piece + rest;
    assert text[0] == '\'' && text[1] == c && text[2] == '\'';
    FirstPiece(piece, rest);
  }

  /** Any other tick is a lifetime's and blanked alone. */
  lemma Lifetime(rest: string)
    requires if rest != "" && rest[0] == '\\' then NoTick(rest[1..]) else !(|rest| >= 2 && rest[1] == '\'')
    ensures Strip("'" + rest) == " " + Strip(rest)
  {
    var text := "'" + rest;
    assert forall k | 1 <= k < |text| :: text[k] == rest[k - 1];
    if rest != "" && rest[0] == '\\' {
      forall k | 2 <= k < |text| ensures text[k] != '\'' { assert text[k] == rest[1..][k - 2]; }
      assert Seek(text, '\'', 2) == |text|;
    }
    assert Blank("'") == " ";
    FirstPiece("'", rest);
  }

  // ---- code --------------------------------------------------------------------------------------------------

  /** Hashes, if any, and a quote. */
  predicate GoesOnRaw(rest: string) {
    exists n: nat | n < |rest| :: rest[n] == '"' && forall k | 0 <= k < n :: rest[k] == '#'
  }

  lemma GoesOnRawIff(text: string, i: nat)
    requires i <= |text|
    ensures GoesOnRaw(text[i..]) <==> HashRun(text, i) < |text| && text[HashRun(text, i)] == '"'
  {
    var rest, h := text[i..], HashRun(text, i);
    assert forall k | 0 <= k < |rest| :: rest[k] == text[i + k];
    if h < |text| && text[h] == '"' { assert rest[h - i] == '"'; }
    if GoesOnRaw(rest) {
      var n: nat :| n < |rest| && rest[n] == '"' && forall k | 0 <= k < n :: rest[k] == '#';
      assert forall k | i <= k < i + n :: text[k] == rest[k - i] == '#';
      assert text[i + n] == rest[n] == '"';
      assert h == i + n;
    }
  }

  lemma InWord(w: string, rest: string, i: nat)
    requires i < |w| && (forall k | 0 <= k < |w| :: IsWordChar(w[k])) && (rest == "" || !IsWordChar(rest[0]))
    requires w == "r" || w == "br" ==> !GoesOnRaw(rest)
    ensures !Blanked(w + rest, i) && PieceEnd(w + rest, i) == i + 1
  {
    var text := w + rest;
    assert text[i] == w[i] && IsWordChar(text[i]);
    if text[i] == 'r' {
      GoesOnRawIff(text, i + 1);
      if i + 1 < |w| {
        assert text[i + 1] == w[i + 1] && IsWordChar(text[i + 1]);
        assert HashRun(text, i + 1) == i + 1;
      } else {
        assert text[i + 1..] == rest;
        assert i == 0 ==> w == "r";
        assert i == 1 && w[0] == 'b' ==> w == "br";
        assert i > 0 ==> IsWordChar(text[i - 1]) && text[i - 1] == w[i - 1];
        assert i > 1 ==> IsWordChar(text[i - 2]) && text[i - 2] == w[i - 2];
      }
      assert !RawStringHere(text, i);
    }
  }

  lemma AfterWord(w: string, rest: string)
    requires rest == "" || !IsWordChar(rest[0])
    ensures StripFrom(w + rest, |w|) == Strip(rest) && w[|w|..] + Strip(rest) == Strip(rest)
  {
    StripShift(w, rest, 0);
  }

  lemma CopiedThen(text: string, i: nat)
    requires i < |text| && !Blanked(text, i) && PieceEnd(text, i) == i + 1
    ensures StripFrom(text, i) == [text[i]] + StripFrom(text, i + 1)
  {
    hide Blanked, PieceEnd;
  }

  lemma {:induction false} WordFrom(w: string, rest: string, i: nat)
    requires i <= |w| && (forall k | 0 <= k < |w| :: IsWordChar(w[k])) && (rest == "" || !IsWordChar(rest[0]))
    requires w == "r" || w == "br" ==> !GoesOnRaw(rest)
    ensures StripFrom(w + rest, i) == w[i..] + Strip(rest)
    decreases |w| - i
  {
    hide PieceEnd, Blanked, GoesOnRaw, IsWordChar, StripFrom, Strip;
    if i == |w| {
      AfterWord(w, rest);
    } else {
      InWord(w, rest, i);
      CopiedThen(w + rest, i);
      WordFrom(w, rest, i + 1);
      assert w[i..] == [w[i]] + w[i + 1..];
      assert [w[i]] + (w[i + 1..] + Strip(rest)) == w[i..] + Strip(rest);
    }
  }

  /** A word is copied, unless it is the `r` or `br` of a raw string. */
  lemma Word(w: string, rest: string)
    requires (forall k | 0 <= k < |w| :: IsWordChar(w[k])) && (rest == "" || !IsWordChar(rest[0]))
    requires w == "r" || w == "br" ==> !GoesOnRaw(rest)
    ensures Strip(w + rest) == w + Strip(rest)
  {
    WordFrom(w, rest, 0);
  }

  /** Any other character is copied. */
  lemma OtherChar(c: char, rest: string)
    requires !IsWordChar(c) && c != '"' && c != '\''
    requires c == '/' && rest != "" ==> rest[0] != '/' && rest[0] != '*'
    ensures Strip([c] + rest) == [c] + Strip(rest)
  {
    var text := [c] + rest;
    assert text[0] == c && (rest != "" ==> text[1] == rest[0]);
    assert !Blanked(text, 0) && PieceEnd(text, 0) == 1;
    hide PieceEnd, Blanked;
    StripShift([c], rest, 0);
  }

  // ---- the streaming lexer, where it looks for itself ------------------------------------------------------------

  /** The streaming lexer opens a raw string exactly at an `r` or `br` that no letter, digit or underscore, in ASCII or
      beyond, comes before, and that hashes, if any, and a quote follow. */
  lemma StreamingOpensRawIff(line: string, i: nat, wide: set<char>)
    requires i < |line|
    ensures BraceScan.OpensRaw(line, i, wide) <==>
            && !(i > 0 && (IsWordChar(line[i - 1]) || line[i - 1] in wide))
            && ((line[i] == 'r' && GoesOnRaw(line[i + 1..]))
                || (line[i] == 'b' && i + 1 < |line| && line[i + 1] == 'r' && GoesOnRaw(line[i + 2..])))
  {
    GoesOnRawIff(line, i + 1);
    if i + 2 <= |line| { GoesOnRawIff(line, i + 2); }
    hide GoesOnRaw, HashRun;
  }

  /** At a tick the streaming lexer skips an escape, its escaped character whatever it is, and all through the next
      tick; or any other character between two ticks; or emits the tick. */
  lemma StreamingTick(c: char, body: string, rest: string)
    requires NoTick(body)
    ensures BraceScan.CharLiteral("'\\" + [c] + body + "'" + rest, 0) == (|body| + 4, "")
    ensures c != '\\' ==> BraceScan.CharLiteral(['\'', c, '\''] + rest, 0) == (3, "")
    ensures c != '\\' && (rest == "" || rest[0] != '\'') ==> BraceScan.CharLiteral(['\'', c] + rest, 0) == (1, "'")
  {
    var line := "'\\" + [c] + body + "'" + rest;
    assert line[1] == '\\' && line[|body| + 3] == '\'';
    forall k | 3 <= k < |body| + 3 ensures line[k] != '\'' { assert line[k] == body[k - 3]; }
    assert Seek(line, '\'', 3) == |body| + 3;
    assert (['\'', c, '\''] + rest)[2] == '\'';
    assert rest != "" ==> (['\'', c] + rest)[2] == rest[0];
  }
}

/** The streaming lexer refines the whole-text one: line by line they leave the same braces and
    semicolons, whatever literal or comment is open across the line breaks. */
module LexerEquivalence {
  import opened Sequences
  import opened RustText
  import opened PythonText
  import opened StripNoncode
  import opened BraceScan

  /** The characters the size gate counts or looks for. */
  predicate IsMark(c: char) {
    c == '{' || c == '}' || c == ';'
  }

  function Marks(s: string): string {
    if s == "" then ""
    else if IsMark(s[0]) then [s[0]] + Marks(s[1..])
    else Marks(s[1..])
  }

  /** Feed the lines in order; the code each one yields. */
  function FeedAll(st: State, lines: seq<string>, wide: set<char>): (out: seq<string>)
    ensures |out| == |lines|
    decreases lines
  {
    if lines == [] then []
    else var (st', code) := FeedFrom(st, lines[0], 0, wide); [code] + FeedAll(st', lines[1..], wide)
  }

  /** The two lexers read the tick at `i` alike: an escape's second character is not the closing
      tick and the literal closes on its own line; a newline is not taken for a character. */
  predicate TickAgrees(text: string, i: nat)
    requires i < |text|
  {
    if PairAt(text, i, '\'', '\\') then
      var close := Seek(text, '\'', i + 2);
      i + 2 < close < |text| && close < Seek(text, '\n', i + 2)
    else
      !(i + 2 < |text| && text[i + 1] == '\n' && text[i + 2] == '\'')
  }

  /** What precedes the character at `i` ends an identifier for both lexers or for neither. */
  predicate LetterAgrees(text: string, i: nat, wide: set<char>)
    requires i < |text|
  {
    i > 0 && text[i - 1] in wide ==> IsIdent(text[i - 1])
  }

  /** The two lexers read the piece of text that starts at `i` alike. */
  predicate PieceAgrees(text: string, i: nat, wide: set<char>)
    requires i < |text|
  {
    (text[i] == '\'' ==> TickAgrees(text, i)) && (text[i] == 'r' || text[i] == 'b' ==> LetterAgrees(text, i, wide))
  }

  predicate AgreesFrom(text: string, i: nat, wide: set<char>)
    requires i <= |text|
    decreases |text| - i
  {
    i == |text| || (PieceAgrees(text, i, wide) && AgreesFrom(text, PieceEnd(text, i), wide))
  }

  /** Texts both lexers read alike, piece by piece: what stands inside strings and comments does not matter. */
  predicate Comparable(text: string, wide: set<char>) {
    AgreesFrom(text, 0, wide)
  }

  /** Where the lexers agree from `i` on, they agree from `j` on. */
  ghost predicate Onward(text: string, i: nat, j: nat)
    requires i <= |text| && j <= |text|
  {
    forall wide: set<char> :: AgreesFrom(text, i, wide) ==> AgreesFrom(text, j, wide)
  }

  // ---- marks -------------------------------------------------------------------------------

  lemma {:induction false} MarksConcat(s: string, t: string)
    ensures Marks(s + t) == Marks(s) + Marks(t)
  {
    if s == "" {
      assert s + t == t;
    } else {
      MarksConcat(s[1..], t);
      assert (s + t)[1..] == s[1..] + t;
    }
  }

  lemma {:induction false} NoMarks(s: string)
    requires forall k | 0 <= k < |s| :: !IsMark(s[k])
    ensures Marks(s) == ""
  {
    if s == "" {
    } else {
      NoMarks(s[1..]);
    }
  }

  // ---- one line as a window of the text -----------------------------------------------------

  /** `a..b` is one line of the text. */
  ghost predicate Window(text: string, a: nat, b: nat) {
    && a <= b <= |text|
    && (forall k | a <= k < b :: text[k] != '\n')
    && (b < |text| ==> text[b] == '\n')
    && (a > 0 ==> text[a - 1] == '\n')
  }

  /** Where what `st` has open at `p` ends in the whole text. */
  ghost function EndIn(st: State, text: string, p: nat): (e: nat)
    requires p <= |text|
    ensures p <= e <= |text|
  {
    match st.mode
    case Code => p
    case Str => StringEnd(text, p)
    case Raw => RawEnd(text, p, st.hashes)
    case Block => BlockEnd(text, p, st.depth)
  }

  /** What the whole-text lexer yields from `p` on when it is inside what `st` has open. */
  ghost function StripIn(st: State, text: string, p: nat): (r: string)
    requires p <= |text|
  {
    Blank(text[p..EndIn(st, text, p)]) + StripFrom(text, EndIn(st, text, p))
  }

  /** The scan moved from `p` to `q`, and between them the whole-text lexer yields `x`. */
  ghost predicate Agrees(st: State, text: string, p: nat, m: Moved, q: nat, x: string) {
    && p < q <= |text| && |x| == q - p
    && StripIn(st, text, p) == x + StripIn(m.state, text, q)
    && Marks(x) == Marks(m.code)
    && Onward(text, EndIn(st, text, p), EndIn(m.state, text, q))
  }

  lemma HashRunInLine(text: string, a: nat, b: nat, j: nat)
    requires Window(text, a, b) && a <= j <= b
    ensures HashRun(text, j) <= b && HashRun(text[a..b], j - a) == HashRun(text, j) - a
    decreases b - j
  {
    if j < b && text[j] == '#' { HashRunInLine(text, a, b, j + 1); }
  }

  lemma BlankSplit(text: string, p: nat, q: nat, e: nat)
    requires p <= q <= e <= |text|
    ensures Blank(text[p..e]) == Blank(text[p..q]) + Blank(text[q..e])
    ensures Marks(Blank(text[p..q])) == ""
  {
    NoMarks(Blank(text[p..q]));
  }

  lemma AgreesThen(st: State, text: string, p: nat, m: Moved, q: nat, x: string, n: Moved, r: nat, y: string)
    requires Agrees(st, text, p, m, q, x) && Agrees(m.state, text, q, n, r, y)
    ensures Agrees(st, text, p, Moved(n.state, n.next, m.code + n.code), r, x + y)
  {
    hide StripIn, Marks;
    var z := StripIn(n.state, text, r);
    assert x + (y + z) == (x + y) + z;
    MarksConcat(x, y);
    MarksConcat(m.code, n.code);
  }

  // ---- a step inside a literal or a comment ---------------------------------------------------

  /** Stepping inside a literal or a comment does not change where it ends. */
  lemma EndKept(st: State, text: string, a: nat, b: nat, p: nat, wide: set<char>)
    requires Window(text, a, b) && a <= p < b && st.mode != Code
    ensures
      var m := Step(st, text[a..b], p - a, wide);
      && a + m.next <= b + 1 && m.code == ""
      && (a + m.next <= |text| ==> EndIn(st, text, p) == EndIn(m.state, text, a + m.next))
      && (a + m.next > b ==> m.state == st && text[p] == '\\' && EndIn(st, text, p) >= b)
  {
    match st.mode
    case Str =>
    case Raw => RawStepEnd(st, text, a, b, p);
    case Block => BlockStepEnd(st, text, a, b, p);
  }

  lemma RawStepEnd(st: State, text: string, a: nat, b: nat, p: nat)
    requires Window(text, a, b) && a <= p < b && st.mode == Raw
    ensures
      var m := RawStep(st, text[a..b], p - a);
      a + m.next <= b && RawEnd(text, p, st.hashes) == EndIn(m.state, text, a + m.next)
  {
    var line := text[a..b];
    assert HashesAt(line, p - a + 1, st.hashes) <==> HashesAt(text, p + 1, st.hashes) by {
      assert b < |text| ==> text[b] != '#';
      if HashesAt(line, p - a + 1, st.hashes) {
        forall k | p + 1 <= k < p + 1 + st.hashes ensures text[k] == '#' { assert line[k - a] == text[k]; }
      }
    }
  }

  lemma BlockStepEnd(st: State, text: string, a: nat, b: nat, p: nat)
    requires Window(text, a, b) && a <= p < b && st.mode == Block
    ensures
      var m := BlockStep(st, text[a..b], p - a);
      a + m.next <= b && BlockEnd(text, p, st.depth) == EndIn(m.state, text, a + m.next)
  {
    PairInLine(text, a, b, p, '/', '*');
    PairInLine(text, a, b, p, '*', '/');
  }

  lemma PairInLine(text: string, a: nat, b: nat, p: nat, c: char, d: char)
    requires Window(text, a, b) && a <= p < b && d != '\n'
    ensures PairAt(text[a..b], p - a, c, d) <==> PairAt(text, p, c, d)
    ensures PairAt(text, p, c, d) ==> p + 2 <= b
  {
  }

  lemma StripInSplit(st: State, st': State, text: string, p: nat, q: nat)
    requires p <= q <= |text| && EndIn(st, text, p) == EndIn(st', text, q)
    ensures StripIn(st, text, p) == Blank(text[p..q]) + StripIn(st', text, q)
  {
    hide EndIn, StripFrom;
    var e := EndIn(st, text, p);
    BlankSplit(text, p, q, e);
    var x, y, z := Blank(text[p..q]), Blank(text[q..e]), StripFrom(text, e);
    assert (x + y) + z == x + (y + z);
  }

  lemma InsideStep(st: State, text: string, a: nat, b: nat, p: nat, m: Moved, wide: set<char>)
    requires Window(text, a, b) && a <= p < b && st.mode != Code
    requires m == Step(st, text[a..b], p - a, wide)
    ensures a + m.next <= b + 1
    ensures a + m.next <= |text| ==> Agrees(st, text, p, m, a + m.next, Blank(text[p..a + m.next]))
    ensures a + m.next > |text| ==>
            b == |text| && m.code == "" && m.state == st && StripIn(st, text, p) == Blank(text[p..])
  {
    hide Step, Marks, AgreesFrom;
    EndKept(st, text, a, b, p, wide);
    NoMarks(m.code);
    if a + m.next <= |text| {
      StripInSplit(st, m.state, text, p, a + m.next);
      NoMarks(Blank(text[p..a + m.next]));
    } else {
      assert text[p..EndIn(st, text, p)] == text[p..];
    }
  }

  // ---- a step in code ---------------------------------------------------------------------------

  /** In code, no raw string opened at the character just passed. */
  ghost predicate Aligned(st: State, text: string, a: nat, b: nat, p: nat, wide: set<char>)
    requires a <= b <= |text| && a <= p
  {
    st.mode == Code && a < p < b && text[p - 1] == 'b' ==>
      !OpensRaw(text[a..b], p - 1 - a, wide) && LetterAgrees(text, p - 1, wide)
  }

  /** The character before `p` ends an identifier for both lexers or for neither. */
  lemma LetterBefore(text: string, a: nat, b: nat, p: nat, wide: set<char>)
    requires Window(text, a, b) && a <= p < b && LetterAgrees(text, p, wide)
    ensures p > a && (IsAlnum(text[a..b][p - a - 1], wide) || text[a..b][p - a - 1] == '_') <==>
            p > 0 && IsIdent(text[p - 1])
    ensures IsIdent('b')
  {
    assert p > a ==> text[a..b][p - a - 1] == text[p - 1];
  }

  /** A raw string the streaming lexer opens at `p` is one the whole-text lexer opens at its `r`. */
  lemma RawOpensToo(text: string, a: nat, b: nat, p: nat, wide: set<char>)
    requires Window(text, a, b) && a <= p < b && LetterAgrees(text, p, wide)
    requires OpensRaw(text[a..b], p - a, wide)
    ensures
      var r := a + RawPrefix(text[a..b], p - a) - 1;
      && p <= r <= p + 1 && r < b && text[r] == 'r' && RawStringHere(text, r) && (r > p ==> text[p] == 'b')
      && HashRun(text[a..b], r + 1 - a) == HashRun(text, r + 1) - a && HashRun(text, r + 1) < b
  {
    hide IsAlnum, IsIdent, LetterAgrees, HashRun;
    HashRunInLine(text, a, b, a + RawPrefix(text[a..b], p - a));
    LetterBefore(text, a, b, p, wide);
  }

  lemma RawOpensBefore(text: string, a: nat, b: nat, p: nat, wide: set<char>)
    requires Window(text, a, b) && a < p < b && LetterAgrees(text, p - 1, wide)
    requires text[p - 1] == 'b' && text[p] == 'r' && RawStringHere(text, p)
    ensures OpensRaw(text[a..b], p - 1 - a, wide)
  {
    hide IsAlnum, IsIdent, LetterAgrees, HashRun;
    HashRunInLine(text, a, b, p + 1);
    LetterBefore(text, a, b, p - 1, wide);
    assert RawPrefix(text[a..b], p - 1 - a) == p + 1 - a;
  }

  lemma RawOpensOnly(text: string, a: nat, b: nat, p: nat, wide: set<char>)
    requires Window(text, a, b) && a <= p < b && LetterAgrees(text, p, wide)
    requires Aligned(START, text, a, b, p, wide)
    requires text[p] == 'r' && RawStringHere(text, p)
    ensures OpensRaw(text[a..b], p - a, wide)
  {
    hide IsAlnum, IsIdent, LetterAgrees, HashRun;
    if p > a && text[p - 1] == 'b' { RawOpensBefore(text, a, b, p, wide); }
    HashRunInLine(text, a, b, p + 1);
    LetterBefore(text, a, b, p, wide);
    assert RawPrefix(text[a..b], p - a) == p + 1 - a;
  }

  lemma StripInCode(st: State, text: string, p: nat)
    requires p <= |text| && st.mode == Code
    ensures StripIn(st, text, p) == StripFrom(text, p)
  {
    assert Blank(text[p..p]) == "";
  }

  lemma StripPiece(text: string, p: nat)
    requires p < |text| && Blanked(text, p)
    ensures StripFrom(text, p) == Blank(text[p..PieceEnd(text, p)]) + StripFrom(text, PieceEnd(text, p))
  {
    hide PieceEnd, Blanked;
  }

  lemma RawPiece(text: string, r: nat)
    requires r < |text| && text[r] == 'r' && RawStringHere(text, r)
    ensures Blanked(text, r)
    ensures var j := HashRun(text, r + 1); j < |text| && PieceEnd(text, r) == RawEnd(text, j + 1, j - (r + 1))
  {
  }

  lemma PieceOnward(text: string, p: nat)
    requires p < |text|
    ensures Onward(text, p, PieceEnd(text, p))
  {
    hide PieceEnd, PieceAgrees;
  }

  lemma OpenStrips(st: State, text: string, p: nat, m: Moved, q: nat)
    requires st.mode == Code && p < q <= |text|
    requires Blanked(text, p) && PieceEnd(text, p) == EndIn(m.state, text, q)
    ensures StripIn(st, text, p) == Blank(text[p..q]) + StripIn(m.state, text, q) && Marks(Blank(text[p..q])) == ""
  {
    hide PieceEnd, Blanked, Marks, EndIn, StripFrom;
    var e := PieceEnd(text, p);
    StripInCode(st, text, p);
    StripPiece(text, p);
    BlankSplit(text, p, q, e);
    var x, y, z := Blank(text[p..q]), Blank(text[q..e]), StripFrom(text, e);
    assert (x + y) + z == x + (y + z);
  }

  /** The whole-text lexer blanks from `p` on, past `q`, where the streaming one has only opened. */
  lemma OpenAgrees(st: State, text: string, p: nat, m: Moved, q: nat)
    requires st.mode == Code && m.code == "" && p < q <= |text|
    requires Blanked(text, p) && PieceEnd(text, p) == EndIn(m.state, text, q)
    ensures Agrees(st, text, p, m, q, Blank(text[p..q]))
  {
    assert EndIn(st, text, p) == p;
    hide PieceEnd, Blanked, Marks, EndIn, StripIn, Onward;
    PieceOnward(text, p);
    NoMarks(m.code);
    OpenStrips(st, text, p, m, q);
  }

  lemma CopyAgrees(st: State, text: string, p: nat, m: Moved)
    requires st.mode == Code && p < |text| && !Blanked(text, p)
    requires m == Moved(st, m.next, [text[p]])
    ensures Agrees(st, text, p, m, p + 1, [text[p]])
  {
    StripInCode(st, text, p);
    StripInCode(st, text, p + 1);
  }

  /** A byte raw string: the whole-text lexer copies the `b` and opens at the `r`. */
  lemma ByteRawAgrees(st: State, text: string, p: nat, m: Moved, q: nat)
    requires st.mode == Code && m.code == "" && p + 1 < q <= |text|
    requires text[p] == 'b' && Blanked(text, p + 1) && PieceEnd(text, p + 1) == EndIn(m.state, text, q)
    ensures Agrees(st, text, p, m, q, "b" + Blank(text[p + 1..q]))
  {
    var y, first := Blank(text[p + 1..q]), Moved(st, p + 1, "b");
    CopyAgrees(st, text, p, first);
    OpenAgrees(st, text, p + 1, m, q);
    AgreesThen(st, text, p, first, p + 1, "b", m, q, y);
    NoMarks("b" + "");
  }

  lemma TickCodeStep(st: State, line: string, i: nat, wide: set<char>)
    requires i < |line| && line[i] == '\''
    ensures CodeStep(st, line, i, wide) == Moved(st, CharLiteral(line, i).0, CharLiteral(line, i).1)
  {
    assert RawPrefix(line, i) == 0;
  }

  /** A tick both lexers read alike; a lifetime's tick is emitted by one and blanked by the other. */
  lemma TickMove(st: State, text: string, a: nat, b: nat, p: nat, m: Moved, wide: set<char>)
    requires Window(text, a, b) && a <= p < b && st.mode == Code
    requires text[p] == '\'' && TickAgrees(text, p)
    requires m == CodeStep(st, text[a..b], p - a, wide)
    ensures a + m.next == CharLiteralEnd(text, p) <= b && m.state == st && Marks(m.code) == ""
    ensures text[a + m.next - 1] == '\''
  {
    hide CodeStep;
    var line := text[a..b];
    PairInLine(text, a, b, p, '\'', '\\');
    TickCodeStep(st, line, p - a, wide);
    if PairAt(text, p, '\'', '\\') {
      var close := Seek(text, '\'', p + 2);
      assert close < b;
      assert line[close - a] == '\'';
      assert forall k | p + 3 - a <= k < close - a :: line[k] == text[k + a];
      assert Seek(line, '\'', p + 3 - a) == close - a;
    } else if p + 2 < |text| && text[p + 2] == '\'' {
      assert p + 2 < b && line[p + 2 - a] == '\'';
    } else {
      assert p + 2 < b ==> line[p + 2 - a] == text[p + 2];
      assert m.code == "'";
      NoMarks("'");
    }
  }

  lemma TickStep(st: State, text: string, a: nat, b: nat, p: nat, m: Moved, wide: set<char>)
    requires Window(text, a, b) && a <= p < b && st.mode == Code
    requires text[p] == '\'' && TickAgrees(text, p)
    requires m == CodeStep(st, text[a..b], p - a, wide)
    ensures p < a + m.next <= b && Agrees(st, text, p, m, a + m.next, Blank(text[p..a + m.next]))
    ensures Aligned(m.state, text, a, b, a + m.next, wide)
  {
    hide CodeStep, StripIn, Marks, CharLiteralEnd, TickAgrees;
    TickMove(st, text, a, b, p, m, wide);
    TickPiece(text, p);
    assert EndIn(m.state, text, a + m.next) == a + m.next;
    OpenAgrees(st, text, p, m.(code := ""), a + m.next);
    NoMarks("");
  }

  lemma TickPiece(text: string, p: nat)
    requires p < |text| && text[p] == '\''
    ensures Blanked(text, p) && PieceEnd(text, p) == CharLiteralEnd(text, p)
  {
  }

  lemma CommentMove(st: State, text: string, a: nat, b: nat, p: nat, m: Moved, wide: set<char>)
    requires Window(text, a, b) && a <= p < b && st.mode == Code
    requires PairAt(text, p, '/', '/') || PairAt(text, p, '/', '*')
    requires m == CodeStep(st, text[a..b], p - a, wide)
    ensures p < a + m.next <= b <= |text| && m.code == ""
    ensures Blanked(text, p) && PieceEnd(text, p) == EndIn(m.state, text, a + m.next)
    ensures Aligned(m.state, text, a, b, a + m.next, wide)
  {
    PairInLine(text, a, b, p, '/', '/');
    PairInLine(text, a, b, p, '/', '*');
  }

  lemma CommentStep(st: State, text: string, a: nat, b: nat, p: nat, m: Moved, wide: set<char>)
    requires Window(text, a, b) && a <= p < b && st.mode == Code
    requires PairAt(text, p, '/', '/') || PairAt(text, p, '/', '*')
    requires m == CodeStep(st, text[a..b], p - a, wide)
    ensures p < a + m.next <= b && Agrees(st, text, p, m, a + m.next, Blank(text[p..a + m.next]))
    ensures Aligned(m.state, text, a, b, a + m.next, wide)
  {
    hide *;
    CommentMove(st, text, a, b, p, m, wide);
    OpenAgrees(st, text, p, m, a + m.next);
  }

  lemma QuoteMove(st: State, text: string, a: nat, b: nat, p: nat, m: Moved, wide: set<char>)
    requires Window(text, a, b) && a <= p < b && st.mode == Code && text[p] == '"'
    requires m == CodeStep(st, text[a..b], p - a, wide)
    ensures p < a + m.next <= b <= |text| && m.code == ""
    ensures Blanked(text, p) && PieceEnd(text, p) == EndIn(m.state, text, a + m.next)
    ensures Aligned(m.state, text, a, b, a + m.next, wide)
  {
    NotComment(st, text, a, b, p);
  }

  lemma QuoteStep(st: State, text: string, a: nat, b: nat, p: nat, m: Moved, wide: set<char>)
    requires Window(text, a, b) && a <= p < b && st.mode == Code && text[p] == '"'
    requires m == CodeStep(st, text[a..b], p - a, wide)
    ensures p < a + m.next <= b && Agrees(st, text, p, m, a + m.next, Blank(text[p..a + m.next]))
    ensures Aligned(m.state, text, a, b, a + m.next, wide)
  {
    hide *;
    QuoteMove(st, text, a, b, p, m, wide);
    OpenAgrees(st, text, p, m, a + m.next);
  }

  lemma NotComment(st: State, text: string, a: nat, b: nat, p: nat)
    requires Window(text, a, b) && a <= p < b
    requires !PairAt(text, p, '/', '/') && !PairAt(text, p, '/', '*')
    ensures !PairAt(text[a..b], p - a, '/', '/') && !PairAt(text[a..b], p - a, '/', '*')
  {
    PairInLine(text, a, b, p, '/', '/');
    PairInLine(text, a, b, p, '/', '*');
  }

  /** Where the streaming lexer resumes after a raw string opener, and at which `r` it opened. */
  lemma RawOpenMove(st: State, text: string, a: nat, b: nat, p: nat, m: Moved, wide: set<char>) returns (r: nat)
    requires Window(text, a, b) && a <= p < b && LetterAgrees(text, p, wide) && st.mode == Code
    requires !PairAt(text, p, '/', '/') && !PairAt(text, p, '/', '*')
    requires OpensRaw(text[a..b], p - a, wide) && m == CodeStep(st, text[a..b], p - a, wide)
    ensures p <= r < a + m.next <= b && (r == p || (r == p + 1 && text[p] == 'b')) && m.code == ""
    ensures Blanked(text, r) && PieceEnd(text, r) == EndIn(m.state, text, a + m.next)
    ensures Aligned(m.state, text, a, b, a + m.next, wide)
  {
    hide RawStringHere, Blanked, PieceEnd, RawEnd, HashRun, IsAlnum, LetterAgrees;
    NotComment(st, text, a, b, p);
    RawOpensToo(text, a, b, p, wide);
    RawPiece(text, a + RawPrefix(text[a..b], p - a) - 1);
    r := a + RawPrefix(text[a..b], p - a) - 1;
    assert m == Moved(st.(mode := Raw, hashes := HashRun(text, r + 1) - (r + 1)), HashRun(text, r + 1) - a + 1, "");
  }

  lemma RawOpenStep(st: State, text: string, a: nat, b: nat, p: nat, m: Moved, wide: set<char>) returns (x: string)
    requires Window(text, a, b) && a <= p < b && LetterAgrees(text, p, wide) && st.mode == Code
    requires !PairAt(text, p, '/', '/') && !PairAt(text, p, '/', '*')
    requires OpensRaw(text[a..b], p - a, wide) && m == CodeStep(st, text[a..b], p - a, wide)
    ensures a + m.next <= b && Agrees(st, text, p, m, a + m.next, x)
    ensures Aligned(m.state, text, a, b, a + m.next, wide)
  {
    var q := a + m.next;
    hide *;
    var r := RawOpenMove(st, text, a, b, p, m, wide);
    if r == p {
      OpenAgrees(st, text, p, m, q);
      x := Blank(text[p..q]);
    } else {
      ByteRawAgrees(st, text, p, m, q);
      x := "b" + Blank(text[p + 1..q]);
    }
  }

  /** Where neither lexer opens anything both copy the character. */
  lemma CopyMove(st: State, text: string, a: nat, b: nat, p: nat, m: Moved, wide: set<char>)
    requires Window(text, a, b) && a <= p < b && PieceAgrees(text, p, wide)
    requires st.mode == Code && Aligned(st, text, a, b, p, wide)
    requires !PairAt(text, p, '/', '/') && !PairAt(text, p, '/', '*') && text[p] != '"' && text[p] != '\''
    requires !OpensRaw(text[a..b], p - a, wide) && m == CodeStep(st, text[a..b], p - a, wide)
    ensures b <= |text| && m == Moved(st, p + 1 - a, [text[p]]) && !Blanked(text, p)
    ensures Aligned(st, text, a, b, p + 1, wide)
  {
    NotComment(st, text, a, b, p);
    hide RawStringHere, IsAlnum, HashRun, LetterAgrees;
    if text[p] == 'r' && RawStringHere(text, p) { RawOpensOnly(text, a, b, p, wide); }
  }

  lemma CopyStep(st: State, text: string, a: nat, b: nat, p: nat, m: Moved, wide: set<char>)
    requires Window(text, a, b) && a <= p < b && PieceAgrees(text, p, wide)
    requires st.mode == Code && Aligned(st, text, a, b, p, wide)
    requires !PairAt(text, p, '/', '/') && !PairAt(text, p, '/', '*') && text[p] != '"' && text[p] != '\''
    requires !OpensRaw(text[a..b], p - a, wide) && m == CodeStep(st, text[a..b], p - a, wide)
    ensures p < a + m.next <= b && Agrees(st, text, p, m, a + m.next, [text[p]])
    ensures Aligned(m.state, text, a, b, a + m.next, wide)
  {
    hide *;
    CopyMove(st, text, a, b, p, m, wide);
    CopyAgrees(st, text, p, m);
  }

  lemma OpensAtLetter(text: string, a: nat, b: nat, p: nat, wide: set<char>)
    requires Window(text, a, b) && a <= p < b
    ensures OpensRaw(text[a..b], p - a, wide) ==> text[p] == 'r' || text[p] == 'b'
  {
  }

  /** One step in code, in both lexers. */
  lemma CodeStepAgrees(st: State, text: string, a: nat, b: nat, p: nat, m: Moved, wide: set<char>) returns (x: string)
    requires Window(text, a, b) && a <= p < b && PieceAgrees(text, p, wide)
    requires st.mode == Code && Aligned(st, text, a, b, p, wide)
    requires m == CodeStep(st, text[a..b], p - a, wide)
    ensures a + m.next <= b && Agrees(st, text, p, m, a + m.next, x)
    ensures Aligned(m.state, text, a, b, a + m.next, wide)
  {
    assert b <= |text| && (text[p] == '\'' ==> TickAgrees(text, p));
    assert OpensRaw(text[a..b], p - a, wide) ==> LetterAgrees(text, p, wide) by { OpensAtLetter(text, a, b, p, wide); }
    hide *;
    if PairAt(text, p, '/', '/') || PairAt(text, p, '/', '*') {
      CommentStep(st, text, a, b, p, m, wide);
      x := Blank(text[p..a + m.next]);
    } else if text[p] == '"' {
      QuoteStep(st, text, a, b, p, m, wide);
      x := Blank(text[p..a + m.next]);
    } else if text[p] == '\'' {
      TickStep(st, text, a, b, p, m, wide);
      x := Blank(text[p..a + m.next]);
    } else if OpensRaw(text[a..b], p - a, wide) {
      x := RawOpenStep(st, text, a, b, p, m, wide);
    } else {
      CopyStep(st, text, a, b, p, m, wide);
      x := [text[p]];
    }
  }

  // ---- a line, and the whole text -----------------------------------------------------------------

  /** What follows the line that ends at `b`. */
  ghost function After(st: State, text: string, b: nat): string
    requires b <= |text|
  {
    if b == |text| then "" else "\n" + StripIn(st, text, b + 1)
  }

  lemma LineBreakKept(st: State, text: string, a: nat, b: nat)
    requires Window(text, a, b)
    ensures StripIn(st, text, b) == After(st, text, b)
    ensures b < |text| ==> Onward(text, EndIn(st, text, b), EndIn(st, text, b + 1))
  {
    if b < |text| {
      if st.mode == Code {
        assert PieceEnd(text, b) == b + 1;
        StripInCode(st, text, b);
        StripInCode(st, text, b + 1);
        assert !Blanked(text, b);
      } else {
        StripInSplit(st, st, text, b, b + 1);
        assert Blank(text[b..b + 1]) == "\n";
      }
    }
  }

  /** An escape at the end of a line swallows the line break. */
  lemma EscapedBreak(st: State, text: string, a: nat, b: nat, p: nat, m: Moved, wide: set<char>)
    requires Window(text, a, b) && a <= p < b && st.mode != Code
    requires m == Step(st, text[a..b], p - a, wide) && a + m.next > b
    ensures p + 1 == b && m.code == "" && m.state == st && StripIn(st, text, p) == " " + After(st, text, b)
    ensures b < |text| ==> Onward(text, EndIn(st, text, p), EndIn(st, text, b + 1))
  {
    InsideStep(st, text, a, b, p, m, wide);
    InsideAligned(st, text, a, b, p, m, wide);
    BlankedBreak(text, p);
    if b < |text| { Regroup(" ", "\n", StripIn(st, text, b + 1)); }
  }

  lemma BlankedBreak(text: string, p: nat)
    requires p < |text| && text[p] != '\n'
    ensures p + 1 == |text| ==> Blank(text[p..]) == " "
    ensures p + 1 < |text| && text[p + 1] == '\n' ==> Blank(text[p..p + 2]) == " " + "\n"
  {
  }

  /** What closes a literal or a comment is never a `b`. */
  lemma InsideAligned(st: State, text: string, a: nat, b: nat, p: nat, m: Moved, wide: set<char>)
    requires Window(text, a, b) && a <= p < b && st.mode != Code
    requires m == Step(st, text[a..b], p - a, wide)
    ensures a + m.next <= b ==> Aligned(m.state, text, a, b, a + m.next, wide)
    ensures a + m.next > b ==> p + 1 == b && m.state == st
  {
    var line, q := text[a..b], a + m.next;
    EndKept(st, text, a, b, p, wide);
    if q <= b && m.state.mode == Code { assert text[q - 1] == line[q - 1 - a] && line[q - 1 - a] in "\"#/"; }
  }

  /** `x` is what the whole-text lexer makes of the rest of the line, and `fed` what the streaming
      lexer makes of it. */
  ghost predicate LineAgreed(st: State, text: string, p: nat, b: nat, x: string, fed: (State, string))
    requires p <= b <= |text|
  {
    && |x| == b - p && Marks(x) == Marks(fed.1) && StripIn(st, text, p) == x + After(fed.0, text, b)
    && (b < |text| ==> Onward(text, EndIn(st, text, p), EndIn(fed.0, text, b + 1)))
  }

  lemma LineThen(st: State, text: string, p: nat, m: Moved, q: nat, y: string, b: nat, z: string, fed: (State, string))
    requires q <= b <= |text| && Agrees(st, text, p, m, q, y) && LineAgreed(m.state, text, q, b, z, fed)
    ensures LineAgreed(st, text, p, b, y + z, (fed.0, m.code + fed.1))
  {
    Regroup(y, z, After(fed.0, text, b));
    MarksConcat(y, z);
    MarksConcat(m.code, fed.1);
  }

  /** One step of the streaming lexer as it shows in the line's yield. */
  ghost predicate Fed(st: State, line: string, i: nat, m: Moved, j: nat, wide: set<char>) {
    && FeedFrom(st, line, i, wide).0 == FeedFrom(m.state, line, j, wide).0
    && FeedFrom(st, line, i, wide).1 == m.code + FeedFrom(m.state, line, j, wide).1
  }

  lemma CodeNext(st: State, text: string, a: nat, b: nat, p: nat, wide: set<char>) returns (m: Moved, q: nat, x: string)
    requires Window(text, a, b) && a <= p < b && PieceAgrees(text, p, wide) && Aligned(st, text, a, b, p, wide)
    requires st.mode == Code
    ensures q <= b && Agrees(st, text, p, m, q, x) && Aligned(m.state, text, a, b, q, wide)
    ensures Fed(st, text[a..b], p - a, m, q - a, wide)
  {
    hide StripIn, OpensRaw;
    m := CodeStep(st, text[a..b], p - a, wide);
    q := a + m.next;
    assert q - a == m.next;
    x := CodeStepAgrees(st, text, a, b, p, m, wide);
  }

  lemma InsideNext(
    st: State, text: string, a: nat, b: nat, p: nat, wide: set<char>
  ) returns (m: Moved, q: nat, x: string)
    requires Window(text, a, b) && a <= p < b && st.mode != Code
    ensures p < q && m.code == "" && Fed(st, text[a..b], p - a, m, q - a, wide)
    ensures q <= b ==> Agrees(st, text, p, m, q, x) && Aligned(m.state, text, a, b, q, wide)
    ensures q > b ==> p + 1 == b && m.state == st && StripIn(st, text, p) == " " + After(st, text, b)
    ensures q > b && b < |text| ==> Onward(text, EndIn(st, text, p), EndIn(st, text, b + 1))
  {
    hide StripIn, OpensRaw;
    m := Step(st, text[a..b], p - a, wide);
    q := a + m.next;
    assert q - a == m.next;
    InsideStep(st, text, a, b, p, m, wide);
    InsideAligned(st, text, a, b, p, m, wide);
    if q > b {
      EscapedBreak(st, text, a, b, p, m, wide);
      x := "";
    } else {
      x := Blank(text[p..q]);
    }
  }

  lemma Forward(st: State, text: string, p: nat, m: Moved, q: nat, x: string)
    requires Agrees(st, text, p, m, q, x)
    ensures p < q <= |text|
  {
  }

  lemma StillAgrees(st: State, text: string, p: nat, m: Moved, q: nat, x: string, wide: set<char>)
    requires p <= |text| && Agrees(st, text, p, m, q, x) && AgreesFrom(text, EndIn(st, text, p), wide)
    ensures AgreesFrom(text, EndIn(m.state, text, q), wide)
  {
    hide AgreesFrom, EndIn, StripIn, Marks;
  }

  lemma CodeAgrees(st: State, text: string, p: nat, wide: set<char>)
    requires p < |text| && st.mode == Code && AgreesFrom(text, EndIn(st, text, p), wide)
    ensures PieceAgrees(text, p, wide)
  {
    hide PieceAgrees, PieceEnd;
  }

  lemma {:induction false} LineAgrees(
    st: State, text: string, a: nat, b: nat, p: nat, wide: set<char>
  ) returns (x: string)
    requires Window(text, a, b) && a <= p <= b && Aligned(st, text, a, b, p, wide)
    requires AgreesFrom(text, EndIn(st, text, p), wide)
    ensures LineAgreed(st, text, p, b, x, FeedFrom(st, text[a..b], p - a, wide))
    decreases b - p
  {
    hide StripIn, OpensRaw, Step, Agrees, Onward, AgreesFrom, EndIn, PieceAgrees;
    var line := text[a..b];
    if p == b {
      LineBreakKept(st, text, a, b);
      return "";
    }
    var m, q, y;
    if st.mode == Code {
      CodeAgrees(st, text, p, wide);
      m, q, y := CodeNext(st, text, a, b, p, wide);
    } else {
      m, q, y := InsideNext(st, text, a, b, p, wide);
    }
    if q > b {
      NoMarks(" ");
      return " ";
    }
    StillAgrees(st, text, p, m, q, y, wide);
    assert p < q by { Forward(st, text, p, m, q, y); }
    var z := LineAgrees(m.state, text, a, b, q, wide);
    LineThen(st, text, p, m, q, y, b, z, FeedFrom(m.state, line, q - a, wide));
    return y + z;
  }

  /** Line by line, both lexers leave the same marks. */
  ghost predicate SameMarks(fed: seq<string>, stripped: seq<string>) {
    |fed| == |stripped| && forall k | 0 <= k < |fed| :: Marks(fed[k]) == Marks(stripped[k])
  }

  lemma SameLineEnd(text: string, out: string, a: nat)
    requires a <= |text| && NewlinesOnly(text) && BlankingOf(out, text)
    ensures |out| == |text| && LineEnd(out, a) == LineEnd(text, a)
    ensures LineEnd(text, a) < |text| ==> out[LineEnd(text, a)] == '\n'
  {
    var e, f := LineEnd(text, a), LineEnd(out, a);
    assert e < |text| ==> IsBreak(out[e]);
    assert f < |text| ==> IsBreak(text[f]);
  }

  lemma FirstLineThen(st: State, line: string, rest: seq<string>, x: string, stripped: seq<string>, wide: set<char>)
    requires Marks(x) == Marks(FeedFrom(st, line, 0, wide).1)
    requires SameMarks(FeedAll(FeedFrom(st, line, 0, wide).0, rest, wide), stripped)
    ensures SameMarks(FeedAll(st, [line] + rest, wide), [x] + stripped)
  {
    hide FeedFrom;
    assert ([line] + rest)[1..] == rest;
  }

  lemma LineIsWindow(text: string, a: nat, b: nat)
    requires a < |text| && NewlinesOnly(text) && b == LineEnd(text, a) && (a > 0 ==> text[a - 1] == '\n')
    ensures Window(text, a, b) && a <= b <= |text| && (b < |text| ==> text[b] == '\n')
  {
    assert IsBreak('\n');
  }

  /** The line at `a`, and where the next one starts. */
  lemma TakeLine(text: string, a: nat, b: nat)
    requires a < |text| && b == LineEnd(text, a) && (b < |text| ==> text[b] == '\n')
    ensures LinesFrom(text, a) == [text[a..b]] + if b < |text| then LinesFrom(text, b + 1) else []
  {
    hide IsBreak;
    assert b < |text| ==> NextLine(text, b) == b + 1;
  }

  /** Cut what the whole-text lexer yields from `a` on at the end of the line. */
  lemma CutLine(out: string, a: nat, b: nat, x: string, rest: string)
    requires a <= b <= |out| && |x| == b - a && out[a..] == x + rest
    ensures out[a..b] == x && out[b..] == rest
    ensures b < |out| ==> out[b + 1..] == rest[1..]
  {
    assert out[a..b] == out[a..][..b - a];
    assert out[b..] == out[a..][b - a..];
    if b < |out| { assert out[b + 1..] == out[b..][1..]; }
  }

  /** One line of the text, in both lexers. */
  lemma OneLine(st: State, text: string, out: string, a: nat, b: nat, wide: set<char>)
    requires Window(text, a, b) && |out| == |text| && AgreesFrom(text, EndIn(st, text, a), wide)
    requires out[a..] == StripIn(st, text, a)
    ensures var (st', code) := FeedFrom(st, text[a..b], 0, wide);
            && Marks(out[a..b]) == Marks(code)
            && (b < |text| ==>
                  && out[b + 1..] == StripIn(st', text, b + 1)
                  && AgreesFrom(text, EndIn(st', text, b + 1), wide))
  {
    hide StripIn, OpensRaw, Step, AgreesFrom, FeedFrom, Marks, EndIn;
    var x := LineAgrees(st, text, a, b, a, wide);
    CutLine(out, a, b, x, After(FeedFrom(st, text[a..b], 0, wide).0, text, b));
  }

  lemma {:induction false} LinesAgree(st: State, text: string, out: string, a: nat, wide: set<char>)
    requires a <= |text| && (a > 0 ==> text[a - 1] == '\n')
    requires NewlinesOnly(text) && BlankingOf(out, text) && AgreesFrom(text, EndIn(st, text, a), wide)
    requires out[a..] == StripIn(st, text, a)
    ensures SameMarks(FeedAll(st, LinesFrom(text, a), wide), LinesFrom(out, a))
    decreases |text| - a
  {
    hide *;
    if a == |text| {
      LinesAtEnd(st, text, out, wide);
    } else {
      var b := LineEnd(text, a);
      LineIsWindow(text, a, b);
      SameLineEnd(text, out, a);
      TakeLine(text, a, b);
      TakeLine(out, a, b);
      OneLine(st, text, out, a, b, wide);
      if b < |text| {
        LinesAgree(FeedFrom(st, text[a..b], 0, wide).0, text, out, b + 1, wide);
      } else {
        NoLines(FeedFrom(st, text[a..b], 0, wide).0, wide);
      }
      FirstLineThen(st, text[a..b], if b < |text| then LinesFrom(text, b + 1) else [], out[a..b],
                    if b < |text| then LinesFrom(out, b + 1) else [], wide);
    }
  }

  lemma LinesAtEnd(st: State, text: string, out: string, wide: set<char>)
    requires BlankingOf(out, text)
    ensures |out| == |text|
    ensures SameMarks(FeedAll(st, LinesFrom(text, |text|), wide), LinesFrom(out, |text|))
  {
  }

  lemma NoLines(st: State, wide: set<char>)
    ensures SameMarks(FeedAll(st, [], wide), [])
  {
  }

  /** The streaming lexer refines the whole-text one. */
  lemma StreamingRefinesWholeText(text: string, wide: set<char>)
    requires NewlinesOnly(text) && Comparable(text, wide)
    ensures SameMarks(FeedAll(START, SplitLines(text), wide), SplitLines(Strip(text)))
  {
    StripIsIdempotentBlanking(text);
    StripInCode(START, text, 0);
    assert Strip(text)[0..] == Strip(text);
    LinesAgree(START, text, Strip(text), 0, wide);
  }

  lemma {:induction false} PlainAgrees(text: string, i: nat, wide: set<char>)
    requires i <= |text|
    requires forall k | 0 <= k < |text| :: text[k] != '\'' && text[k] < '\U{80}'
    requires forall c | c in wide :: c >= '\U{80}'
    ensures AgreesFrom(text, i, wide)
    decreases |text| - i
  {
    hide PieceEnd, TickAgrees, IsIdent;
    if i == |text| {
    } else {
      PlainAgrees(text, PieceEnd(text, i), wide);
    }
  }

  /** Apostrophe-free ASCII text needs no further hypothesis. */
  lemma StreamingRefinesOnPlainText(text: string, wide: set<char>)
    requires NewlinesOnly(text)
    requires forall k | 0 <= k < |text| :: text[k] != '\'' && text[k] < '\U{80}'
    requires forall c | c in wide :: c >= '\U{80}'
    ensures SameMarks(FeedAll(START, SplitLines(text), wide), SplitLines(Strip(text)))
  {
    PlainAgrees(text, 0, wide);
    StreamingRefinesWholeText(text, wide);
  }

  /** At a tick in code the two lexers go on from the same place, within the line, exactly when they read it alike. */
  lemma TickAgreesIff(st: State, text: string, a: nat, b: nat, p: nat, wide: set<char>)
    requires Window(text, a, b) && a <= p < b && st.mode == Code && text[p] == '\''
    ensures var m := CodeStep(st, text[a..b], p - a, wide);
            a + m.next <= b && a + m.next == CharLiteralEnd(text, p) <==> TickAgrees(text, p)
  {
    var line := text[a..b];
    var m := CodeStep(st, line, p - a, wide);
    if TickAgrees(text, p) { TickMove(st, text, a, b, p, m, wide); }
    hide CodeStep;
    PairInLine(text, a, b, p, '\'', '\\');
    TickCodeStep(st, line, p - a, wide);
    if PairAt(text, p, '\'', '\\') {
      if a + m.next <= b && a + m.next == CharLiteralEnd(text, p) {
        var close := a + m.next - 1;
        assert p + 3 <= close < b && close == Seek(text, '\'', p + 2);
        assert b <= Seek(text, '\n', p + 2);
      }
    } else if !TickAgrees(text, p) {
      assert p + 1 == b && m.next == p + 1 - a && CharLiteralEnd(text, p) == p + 3;
    }
  }

  /** A tick read differently can cost a brace: the escaped tick in `'\'','{'` ends one character later in the
      streaming lexer, and the whole-text lexer then takes the brace literal for a brace. */
  lemma EscapedTickDiffers()
    ensures var text := "'\\'','{'";
            && NewlinesOnly(text) && !TickAgrees(text, 0)
            && Marks(FeedFrom(START, text, 0, {}).1) == "" && Marks(Strip(text)) == "{"
  {
    hide Strip, FeedFrom, Marks;
    EscapedTickStripped();
    EscapedTickFed();
  }

  lemma EscapedTickStripped()
    ensures Marks(Strip("'\\'','{'")) == "{"
  {
    var text := "'\\'','{'";
    assert text[2] == '\'';
    assert CharLiteralEnd(text, 0) == 3 && CharLiteralEnd(text, 3) == 6 && CharLiteralEnd(text, 7) == 8;
    assert StripFrom(text, 7) == Blank(text[7..8]) + "";
    assert StripFrom(text, 6) == "{" + StripFrom(text, 7);
    assert StripFrom(text, 3) == Blank(text[3..6]) + StripFrom(text, 6);
    assert Strip(text) == Blank(text[0..3]) + StripFrom(text, 3);
    NoMarks(Blank(text[0..3]));
    NoMarks(Blank(text[3..6]));
    NoMarks(StripFrom(text, 7));
    MarksConcat(Blank(text[0..3]), StripFrom(text, 3));
    MarksConcat(Blank(text[3..6]), StripFrom(text, 6));
    MarksConcat("{", StripFrom(text, 7));
  }

  lemma EscapedTickFed()
    ensures FeedFrom(START, "'\\'','{'", 0, {}).1 == "," && Marks(",") == ""
  {
    var text := "'\\'','{'";
    assert text[3] == '\'';
    assert CodeStep(START, text, 5, {}) == Moved(START, 8, "");
    assert CodeStep(START, text, 4, {}) == Moved(START, 5, ",");
    assert CodeStep(START, text, 0, {}) == Moved(START, 4, "");
    assert FeedFrom(START, text, 5, {}).1 == "";
    assert FeedFrom(START, text, 4, {}).1 == ",";
  }
}

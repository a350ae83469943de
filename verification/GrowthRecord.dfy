/** What the text of a growth record authorizes.  The gate looks for the authorization line anywhere in a document,
    so a document can authorize a rise it does not name. */
module GrowthRecord {
  import opened PythonText
  import opened SizeRatchet

  const MARKER := "growth-authorization:"

  // ---- numbers as text -----------------------------------------------------------------------------

  predicate IsDigit(c: char) {
    '0' <= c <= '9'
  }

  lemma {:induction false} NaturalIsDigits(n: nat)
    ensures forall k | 0 <= k < |Natural(n)| :: IsDigit(Natural(n)[k])
    ensures n > 0 ==> Natural(n)[0] != '0'
  {
    if n >= 10 { NaturalIsDigits(n / 10); }
  }

  lemma {:induction false} NaturalIsInjective(m: nat, n: nat)
    requires Natural(m) == Natural(n)
    ensures m == n
  {
    if m >= 10 && n >= 10 {
      assert Natural(m)[..|Natural(m)| - 1] == Natural(m / 10);
      assert Natural(n)[..|Natural(n)| - 1] == Natural(n / 10);
      NaturalIsInjective(m / 10, n / 10);
      SameDigit(m % 10, n % 10);
    } else if m < 10 && n < 10 {
      SameDigit(m, n);
    }
  }

  lemma SameDigit(a: nat, b: nat)
    requires a < 10 && b < 10
    ensures "0123456789"[a] == "0123456789"[b] ==> a == b
  {
  }

  lemma DecimalIsInjective(a: int, b: int)
    requires Decimal(a) == Decimal(b)
    ensures a == b
  {
    var m: nat, n: nat := if a < 0 then -a else a, if b < 0 then -b else b;
    NaturalIsDigits(m);
    NaturalIsDigits(n);
    hide Natural;
    assert a < 0 <==> Decimal(a)[0] == '-';
    assert b < 0 <==> Decimal(b)[0] == '-';
    assert a < 0 ==> Decimal(a)[1..] == Natural(m) && Decimal(b)[1..] == Natural(n);
    NaturalIsInjective(m, n);
  }

  lemma DivTen(n: nat, d: nat)
    requires d < 10
    ensures (10 * n + d) / 10 == n && (10 * n + d) % 10 == d
  {
  }

  lemma LastDigit(m: nat, n: nat, d: nat)
    requires m >= 10 && m / 10 == n && m % 10 == d
    ensures Natural(m) == Natural(n) + ["0123456789"[d]]
  {
  }

  lemma DigitIs(digit: char)
    requires IsDigit(digit)
    ensures "0123456789"[digit as int - '0' as int] == digit
  {
  }

  /** A digit more. */
  lemma NaturalNext(n: nat, digit: char)
    requires n > 0 && IsDigit(digit)
    ensures Natural(10 * n + (digit as int - '0' as int)) == Natural(n) + [digit]
  {
    var d := digit as int - '0' as int;
    hide Natural;
    DivTen(n, d);
    DigitIs(digit);
    LastDigit(10 * n + d, n, d);
  }

  lemma DecimalHasNoBlank(a: int)
    ensures NoBlank(Decimal(a))
  {
    NaturalIsDigits(if a < 0 then -a else a);
  }

  // ---- the line as five words ------------------------------------------------------------------------

  predicate NoBlank(s: string) {
    forall k | 0 <= k < |s| :: s[k] != ' '
  }

  /** Five words, a blank between each two. */
  function Words(a: string, b: string, c: string, d: string, e: string): string {
    a + " " + b + " " + c + " " + d + " " + e
  }

  lemma LineIsWords(rel: string, was: int, n: nat)
    ensures AuthorizationLine(rel, was, n) == Words(MARKER, rel, Decimal(was), "->", Natural(n))
  {
    hide Decimal;
    assert "growth-authorization: " == MARKER + " ";
    assert " -> " == " " + "->" + " ";
    assert Decimal(n) == Natural(n) by { Positive(n); }
    var a, b, c, e := MARKER, rel, Decimal(was), Natural(n);
    assert a + " " + b + " " + c + (" " + "->" + " ") + e == Words(a, b, c, "->", e);
  }

  lemma Positive(n: nat)
    ensures Decimal(n) == Natural(n)
  {
  }

  /** Where the blanks are. */
  lemma BlanksOf(a: string, b: string, c: string, d: string, e: string)
    requires NoBlank(a) && NoBlank(b) && NoBlank(c) && NoBlank(d) && NoBlank(e)
    ensures
      var p0 := |a|; var p1 := p0 + 1 + |b|; var p2 := p1 + 1 + |c|; var p3 := p2 + 1 + |d|;
      var text := Words(a, b, c, d, e);
      && |text| == p3 + 1 + |e|
      && text[p0] == text[p1] == text[p2] == text[p3] == ' '
      && (forall k | 0 <= k < |text| && text[k] == ' ' :: k == p0 || k == p1 || k == p2 || k == p3)
  {
  }

  lemma PartsOf(a: string, b: string, c: string, d: string, e: string)
    ensures
      var p0 := |a|; var p1 := p0 + 1 + |b|; var p2 := p1 + 1 + |c|; var p3 := p2 + 1 + |d|;
      var text := Words(a, b, c, d, e);
      && |text| == p3 + 1 + |e|
      && text[p0 + 1..p1] == b && text[p1 + 1..p2] == c && text[p3 + 1..] == e
  {
  }

  /** Five words occur in five others with the same first and fourth only at the front, word for word, and the last
      one as a prefix. */
  lemma WordsInWords(a: string, b: string, c: string, d: string, e: string, b': string, c': string, e': string)
    requires NoBlank(a) && NoBlank(b) && NoBlank(c) && NoBlank(d) && NoBlank(e) && NoBlank(b') && NoBlank(c')
             && NoBlank(e')
    ensures Contains(Words(a, b', c', d, e'), Words(a, b, c, d, e)) <==> b == b' && c == c' && e <= e'
  {
    var text, want := Words(a, b', c', d, e'), Words(a, b, c, d, e);
    if b == b' && c == c' && e <= e' { assert OccursAt(text, want, 0); }
    if Contains(text, want) {
      var k: nat :| k <= |text| && OccursAt(text, want, k);
      hide Words, NoBlank, Contains;
      SameBlanks(a, b, c, d, e, b', c', e', k);
      SameWords(a, b, c, d, e, b', c', e');
    }
  }

  lemma SameWords(a: string, b: string, c: string, d: string, e: string, b': string, c': string, e': string)
    requires OccursAt(Words(a, b', c', d, e'), Words(a, b, c, d, e), 0) && |b| == |b'| && |c| == |c'|
    ensures b == b' && c == c' && e <= e'
  {
    var text, want := Words(a, b', c', d, e'), Words(a, b, c, d, e);
    hide Words;
    PartsOf(a, b, c, d, e);
    PartsOf(a, b', c', d, e');
    var p0 := |a|; var p1 := p0 + 1 + |b|; var p2 := p1 + 1 + |c|; var p3 := p2 + 1 + |d|;
    assert text[..|want|] == want;
    assert b == want[p0 + 1..p1] == text[p0 + 1..p1] == b';
    assert c == want[p1 + 1..p2] == text[p1 + 1..p2] == c';
    assert e == want[p3 + 1..] == text[p3 + 1..|want|];
  }

  lemma SameBlanks(a: string, b: string, c: string, d: string, e: string, b': string, c': string, e': string, k: nat)
    requires NoBlank(a) && NoBlank(b) && NoBlank(c) && NoBlank(d) && NoBlank(e) && NoBlank(b') && NoBlank(c')
             && NoBlank(e')
    requires OccursAt(Words(a, b', c', d, e'), Words(a, b, c, d, e), k)
    ensures k == 0 && |b| == |b'| && |c| == |c'|
  {
    var text, want := Words(a, b', c', d, e'), Words(a, b, c, d, e);
    BlanksOf(a, b, c, d, e);
    BlanksOf(a, b', c', d, e');
    hide Words, NoBlank;
    forall i | 0 <= i < |want| ensures want[i] == text[k + i] { assert text[k..k + |want|][i] == text[k + i]; }
  }

  /** One authorization line contains the text of another exactly when they are about the same file and the same old
      baseline, and the digits of its new one begin with those of the other's. */
  lemma LineAuthorizesIff(rel: string, was: int, m: nat, rel': string, was': int, n: nat)
    requires NoBlank(rel) && NoBlank(rel')
    ensures Contains(AuthorizationLine(rel', was', n), AuthorizationLine(rel, was, m)) <==>
            rel == rel' && was == was' && Natural(m) <= Natural(n)
  {
    NaturalIsDigits(m);
    NaturalIsDigits(n);
    DecimalHasNoBlank(was);
    DecimalHasNoBlank(was');
    LineIsWords(rel, was, m);
    LineIsWords(rel', was', n);
    hide AuthorizationLine, Natural, Contains, Words, Decimal;
    WordsInWords(MARKER, rel, Decimal(was), "->", Natural(m), rel', Decimal(was'), Natural(n));
    if Decimal(was) == Decimal(was') { DecimalIsInjective(was, was'); }
  }

  /** In particular a record of a tenfold rise authorizes the smaller one, whatever its last digit. */
  lemma TenfoldRecordAuthorizes(rel: string, was: int, now: nat, digit: char)
    requires NoBlank(rel) && now > 0 && IsDigit(digit)
    ensures var more := 10 * now + (digit as int - '0' as int);
            Contains(AuthorizationLine(rel, was, more), AuthorizationLine(rel, was, now))
  {
    hide Natural, Contains, AuthorizationLine;
    NaturalNext(now, digit);
    LineAuthorizesIff(rel, was, now, rel, was, 10 * now + (digit as int - '0' as int));
  }

  // ---- any document ------------------------------------------------------------------------------------

  /** The document writes this rise out somewhere, on a line of its own or not: the text is there, and the number does
      not go on. */
  ghost predicate WritesRise(doc: string, rel: string, was: int, n: nat) {
    exists k: nat | k <= |doc| :: WritesRiseAt(doc, rel, was, n, k)
  }

  predicate WritesRiseAt(doc: string, rel: string, was: int, n: nat, k: nat) {
    var end := k + |AuthorizationLine(rel, was, n)|;
    OccursAt(doc, AuthorizationLine(rel, was, n), k) && (end < |doc| ==> !IsDigit(doc[end]))
  }

  lemma LineExtends(rel: string, was: int, m: nat, n: nat, tail: string)
    requires Natural(n) == Natural(m) + tail
    ensures AuthorizationLine(rel, was, n) == AuthorizationLine(rel, was, m) + tail
  {
    hide Natural;
    Positive(m);
    Positive(n);
  }

  /** Read on to the end of the number. */
  lemma {:induction false} ReadOn(doc: string, rel: string, was: int, m: nat, k: nat) returns (n: nat)
    requires m > 0 && OccursAt(doc, AuthorizationLine(rel, was, m), k)
    ensures Natural(m) <= Natural(n) && WritesRiseAt(doc, rel, was, n, k)
    decreases |doc| - (k + |AuthorizationLine(rel, was, m)|)
  {
    hide Natural, AuthorizationLine;
    var line := AuthorizationLine(rel, was, m);
    var end := k + |line|;
    n := m;
    if end < |doc| && IsDigit(doc[end]) {
      var more := 10 * m + (doc[end] as int - '0' as int);
      NaturalNext(m, doc[end]);
      LineExtends(rel, was, m, more, [doc[end]]);
      assert doc[k..end + 1] == doc[k..end] + [doc[end]];
      n := ReadOn(doc, rel, was, more, k);
    }
  }

  /** Exactly which rises a document authorizes: those whose new baseline is a beginning of one it writes out, for the
      same file from the same old baseline. */
  lemma DocumentAuthorizesIff(doc: string, rel: string, was: int, m: nat)
    requires m > 0
    ensures Contains(doc, AuthorizationLine(rel, was, m)) <==>
            exists n: nat :: Natural(m) <= Natural(n) && WritesRise(doc, rel, was, n)
  {
    hide Natural, AuthorizationLine, WritesRiseAt;
    var want := AuthorizationLine(rel, was, m);
    if Contains(doc, want) {
      var k: nat :| k <= |doc| && OccursAt(doc, want, k);
      var n := ReadOn(doc, rel, was, m, k);
    }
    if exists n: nat :: Natural(m) <= Natural(n) && WritesRise(doc, rel, was, n) {
      var n: nat :| Natural(m) <= Natural(n) && WritesRise(doc, rel, was, n);
      var k: nat :| k <= |doc| && WritesRiseAt(doc, rel, was, n, k);
      PrefixOccurs(doc, rel, was, m, n, k);
    }
  }

  lemma PrefixOccurs(doc: string, rel: string, was: int, m: nat, n: nat, k: nat)
    requires Natural(m) <= Natural(n) && WritesRiseAt(doc, rel, was, n, k)
    ensures OccursAt(doc, AuthorizationLine(rel, was, m), k)
  {
    hide Natural, AuthorizationLine;
    var line, want := AuthorizationLine(rel, was, n), AuthorizationLine(rel, was, m);
    LineExtends(rel, was, m, n, Natural(n)[|Natural(m)|..]);
    assert doc[k..k + |line|][..|want|] == doc[k..k + |want|];
  }

  /** A document authorizes a rise it does not write out exactly when it writes out a longer number for it. */
  lemma AuthorizesUnwrittenIff(doc: string, rel: string, was: int, m: nat)
    requires m > 0 && !WritesRise(doc, rel, was, m)
    ensures Contains(doc, AuthorizationLine(rel, was, m)) <==>
            exists n: nat :: Natural(m) < Natural(n) && WritesRise(doc, rel, was, n)
  {
    hide Natural, AuthorizationLine, WritesRise, Contains;
    DocumentAuthorizesIff(doc, rel, was, m);
    forall n: nat | Natural(m) <= Natural(n) && WritesRise(doc, rel, was, n) ensures Natural(m) < Natural(n) {
      if Natural(m) == Natural(n) { NaturalIsInjective(m, n); }
    }
  }

  // ---- line by line --------------------------------------------------------------------------------------

  predicate OnOneLine(s: string) {
    forall k | 0 <= k < |s| :: !IsBreak(s[k])
  }

  /** Text without a line break is in a document exactly when it is in one of its lines. */
  lemma {:induction false} InSomeLine(doc: string, i: nat, want: string)
    requires i <= |doc| && want != "" && OnOneLine(want)
    ensures (exists k: nat | i <= k <= |doc| :: OccursAt(doc, want, k)) <==>
            exists line | line in LinesFrom(doc, i) :: Contains(line, want)
    decreases |doc| - i
  {
    if i == |doc| {
    } else {
      var e := LineEnd(doc, i);
      InThisLine(doc, i, want);
      var next := if e == |doc| then |doc| else NextLine(doc, e);
      var rest := if e == |doc| then [] else LinesFrom(doc, next);
      assert LinesFrom(doc, i) == [doc[i..e]] + rest;
      InSomeLine(doc, next, want);
      hide LinesFrom, Contains;
      forall k: nat | i <= k <= |doc| && OccursAt(doc, want, k) ensures k + |want| <= e || next <= k {
        NotAcross(doc, i, want, k);
      }
    }
  }

  lemma InThisLine(doc: string, i: nat, want: string)
    requires i < |doc| && want != ""
    ensures Contains(doc[i..LineEnd(doc, i)], want) <==>
            exists k: nat | i <= k <= |doc| :: OccursAt(doc, want, k) && k + |want| <= LineEnd(doc, i)
  {
    var e := LineEnd(doc, i);
    var line := doc[i..e];
    hide LineEnd;
    if Contains(line, want) {
      var k: nat :| k <= |line| && OccursAt(line, want, k);
      assert doc[i + k..i + k + |want|] == line[k..k + |want|];
      assert OccursAt(doc, want, i + k);
    }
    if exists k: nat | i <= k <= |doc| :: OccursAt(doc, want, k) && k + |want| <= e {
      var k: nat :| i <= k <= |doc| && OccursAt(doc, want, k) && k + |want| <= e;
      assert line[k - i..k - i + |want|] == doc[k..k + |want|];
      assert OccursAt(line, want, k - i);
    }
  }

  /** No occurrence runs across a line break. */
  lemma NotAcross(doc: string, i: nat, want: string, k: nat)
    requires i < |doc| && want != "" && OnOneLine(want) && i <= k <= |doc| && OccursAt(doc, want, k)
    ensures var e := LineEnd(doc, i); k + |want| <= e || (e < |doc| && NextLine(doc, e) <= k)
  {
    var e := LineEnd(doc, i);
    if k + |want| > e {
      forall j | k <= j < k + |want| ensures !IsBreak(doc[j]) {
        assert doc[k..k + |want|][j - k] == doc[j] == want[j - k];
      }
      assert e < k;
      assert doc[k] == want[0];
    }
  }

  // ---- the exact literal line ------------------------------------------------------------------------------

  /** In this line the text stands and its number goes on. */
  predicate NumberGoesOn(line: string, want: string) {
    exists k: nat | k <= |line| :: OccursAt(line, want, k) && k + |want| < |line| && IsDigit(line[k + |want|])
  }

  /** In this line other text stands before or after it. */
  predicate StandsAmongText(line: string, want: string) {
    exists k: nat | k <= |line| ::
      OccursAt(line, want, k) && (k > 0 || (k + |want| < |line| && !IsDigit(line[k + |want|])))
  }

  /** A line that contains the text and is not it has something more. */
  lemma HasMoreIff(line: string, want: string)
    ensures Contains(line, want) && line != want <==> NumberGoesOn(line, want) || StandsAmongText(line, want)
  {
    assert line[0..|line|] == line;
    if Contains(line, want) && line != want {
      var k: nat :| k <= |line| && OccursAt(line, want, k);
      assert k > 0 || k + |want| < |line|;
    }
  }

  /** Where the exact literal line is missing: the document authorizes the rise all the same exactly when in some line
      the number goes on, or other text stands before or after the authorization. */
  lemma AuthorizesUnlistedIff(doc: string, rel: string, was: int, m: nat)
    requires OnOneLine(rel) && AuthorizationLine(rel, was, m) !in SplitLines(doc)
    ensures var want := AuthorizationLine(rel, was, m);
            Contains(doc, want) <==>
            exists line | line in SplitLines(doc) :: NumberGoesOn(line, want) || StandsAmongText(line, want)
  {
    var want := AuthorizationLine(rel, was, m);
    LineOnOneLine(rel, was, m);
    hide AuthorizationLine, OnOneLine, LinesFrom, NumberGoesOn, StandsAmongText;
    InSomeLine(doc, 0, want);
    assert Contains(doc, want) <==> exists k: nat | 0 <= k <= |doc| :: OccursAt(doc, want, k);
    hide Contains;
    forall line | line in SplitLines(doc)
      ensures Contains(line, want) <==> NumberGoesOn(line, want) || StandsAmongText(line, want)
    {
      HasMoreIff(line, want);
    }
  }

  lemma OneLineText(doc: string)
    requires OnOneLine(doc) && doc != ""
    ensures SplitLines(doc) == [doc]
  {
    assert LineEnd(doc, 0) == |doc|;
    assert doc[0..|doc|] == doc;
  }

  /** So a document that says anything at all in front of the line, be it that the rise was refused, authorizes it. */
  lemma WordsInFrontAuthorize(before: string, rel: string, was: int, m: nat)
    requires before != "" && OnOneLine(before) && OnOneLine(rel)
    ensures var want := AuthorizationLine(rel, was, m);
            && Contains(before + want, want) && want !in SplitLines(before + want)
            && WritesRise(before + want, rel, was, m)
  {
    var want := AuthorizationLine(rel, was, m);
    var doc := before + want;
    LineOnOneLine(rel, was, m);
    hide AuthorizationLine;
    assert OccursAt(doc, want, |before|);
    assert WritesRiseAt(doc, rel, was, m, |before|);
    OneLineText(doc);
    assert |doc| > |want|;
  }

  // ---- records that list rises -------------------------------------------------------------------------------

  datatype Rise = Rise(rel: string, was: int, now: nat)

  function LineOf(r: Rise): string {
    AuthorizationLine(r.rel, r.was, r.now)
  }

  /** The document lists these rises, each on a line of its own, and speaks of authorization nowhere else. */
  ghost predicate ListsRises(doc: string, rises: set<Rise>) {
    && (forall r | r in rises :: NoBlank(r.rel) && LineOf(r) in SplitLines(doc))
    && (forall line | line in SplitLines(doc) :: !Contains(line, MARKER) || exists r | r in rises :: line == LineOf(r))
  }

  lemma LineHasMarker(text: string, rel: string, was: int, m: nat)
    requires Contains(text, AuthorizationLine(rel, was, m))
    ensures Contains(text, MARKER)
  {
    var want := AuthorizationLine(rel, was, m);
    LineIsWords(rel, was, m);
    assert MARKER <= want;
    var k: nat :| k <= |text| && OccursAt(text, want, k);
    hide AuthorizationLine;
    assert text[k..k + |want|][..|MARKER|] == text[k..k + |MARKER|];
    assert OccursAt(text, MARKER, k);
  }

  lemma LineOnOneLine(rel: string, was: int, m: nat)
    requires OnOneLine(rel)
    ensures OnOneLine(AuthorizationLine(rel, was, m)) && AuthorizationLine(rel, was, m) != ""
  {
    NaturalIsDigits(m);
    NaturalIsDigits(if was < 0 then -was else was);
    hide Natural;
    Positive(m);
    assert OnOneLine(Decimal(was));
    hide Decimal;
    assert OnOneLine("growth-authorization: ") && OnOneLine(" -> ") && OnOneLine(" ");
  }

  /** A record that lists rises line by line authorizes exactly the listed ones and those whose new baseline begins
      one of them. */
  lemma RecordOfLinesAuthorizes(doc: string, rises: set<Rise>, rel: string, was: int, m: nat)
    requires ListsRises(doc, rises) && NoBlank(rel) && OnOneLine(rel)
    ensures Contains(doc, AuthorizationLine(rel, was, m)) <==>
            exists r | r in rises :: r.rel == rel && r.was == was && Natural(m) <= Natural(r.now)
  {
    var want := AuthorizationLine(rel, was, m);
    LineOnOneLine(rel, was, m);
    InSomeLine(doc, 0, want);
    hide AuthorizationLine, LinesFrom, Natural, OnOneLine;
    forall r | r in rises
      ensures Contains(LineOf(r), want) <==> r.rel == rel && r.was == was && Natural(m) <= Natural(r.now)
    {
      LineAuthorizesIff(rel, was, m, r.rel, r.was, r.now);
    }
    forall line | line in SplitLines(doc) && Contains(line, want) ensures Contains(line, MARKER) {
      LineHasMarker(line, rel, was, m);
    }
    assert Contains(doc, want) <==> exists k: nat | 0 <= k <= |doc| :: OccursAt(doc, want, k);
    hide Contains, NoBlank, LineOf;
  }

  /** Every number above the old baseline that begins a listed new one is listed itself. */
  ghost predicate ListsTruncations(rises: set<Rise>) {
    forall r, m: nat | r in rises && r.was < m && Natural(m) <= Natural(r.now) :: Rise(r.rel, r.was, m) in rises
  }

  /** The document authorizes only rises it lists. */
  ghost predicate AuthorizesOnlyListed(doc: string, rises: set<Rise>) {
    forall rel: string, was: int, m: nat | NoBlank(rel) && OnOneLine(rel) && was < m ::
      Contains(doc, AuthorizationLine(rel, was, m)) ==> Rise(rel, was, m) in rises
  }

  /** The lines of a document have no line breaks. */
  lemma {:induction false} LinesAreOneLine(doc: string, i: nat, line: string)
    requires i <= |doc| && line in LinesFrom(doc, i)
    ensures OnOneLine(line)
    decreases |doc| - i
  {
    var e := LineEnd(doc, i);
    if line == doc[i..e] {
    } else {
      LinesAreOneLine(doc, NextLine(doc, e), line);
    }
  }

  lemma SliceIsOneLine(line: string, i: nat, j: nat)
    requires i <= j <= |line| && OnOneLine(line)
    ensures OnOneLine(line[i..j])
  {
    hide IsBreak;
    forall k | 0 <= k < j - i ensures !IsBreak(line[i..j][k]) { assert line[i..j][k] == line[i + k]; }
  }

  lemma ListedIsOneLine(doc: string, r: Rise)
    requires LineOf(r) in SplitLines(doc)
    ensures OnOneLine(r.rel)
  {
    hide AuthorizationLine, Decimal, Natural, LinesFrom, Words, OnOneLine;
    LinesAreOneLine(doc, 0, LineOf(r));
    LineIsWords(r.rel, r.was, r.now);
    PartsOf(MARKER, r.rel, Decimal(r.was), "->", Natural(r.now));
    SliceIsOneLine(LineOf(r), |MARKER| + 1, |MARKER| + 1 + |r.rel|);
  }

  /** A record that lists rises line by line authorizes only those exactly when every truncation of a listed new
      baseline above its old one is listed too. */
  lemma OnlyListedIff(doc: string, rises: set<Rise>)
    requires ListsRises(doc, rises)
    ensures AuthorizesOnlyListed(doc, rises) <==> ListsTruncations(rises)
  {
    hide AuthorizationLine, Natural, Contains, OnOneLine, NoBlank, LinesFrom;
    if AuthorizesOnlyListed(doc, rises) {
      forall r, m: nat | r in rises && r.was < m && Natural(m) <= Natural(r.now)
        ensures Rise(r.rel, r.was, m) in rises
      {
        ListedIsOneLine(doc, r);
        RecordOfLinesAuthorizes(doc, rises, r.rel, r.was, m);
      }
    }
    if ListsTruncations(rises) {
      forall rel: string, was: int, m: nat | NoBlank(rel) && OnOneLine(rel) && was < m
        ensures Contains(doc, AuthorizationLine(rel, was, m)) ==> Rise(rel, was, m) in rises
      {
        RecordOfLinesAuthorizes(doc, rises, rel, was, m);
      }
    }
  }

  /** A number that begins another is at most a tenth of it. */
  lemma {:induction false} TruncationIsSmall(m: nat, n: nat)
    requires Natural(m) <= Natural(n)
    ensures m == n || m <= n / 10
    decreases n
  {
    NaturalIsDigits(m);
    NaturalIsDigits(n);
    if Natural(m) == Natural(n) {
      NaturalIsInjective(m, n);
    } else {
      assert n >= 10;
      assert Natural(m) <= Natural(n / 10) by { LastDigit(n, n / 10, n % 10); }
      hide Natural;
      TruncationIsSmall(m, n / 10);
    }
  }

  /** It is enough that no rise is tenfold. */
  lemma SmallRisesAreSafe(doc: string, rises: set<Rise>)
    requires ListsRises(doc, rises) && forall r | r in rises :: r.now / 10 <= r.was
    ensures AuthorizesOnlyListed(doc, rises)
  {
    hide Natural, ListsRises, AuthorizesOnlyListed;
    forall r, m: nat | r in rises && r.was < m && Natural(m) <= Natural(r.now) ensures Rise(r.rel, r.was, m) in rises {
      TruncationIsSmall(m, r.now);
    }
    OnlyListedIff(doc, rises);
  }
}

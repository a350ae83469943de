/** `strip_noncode`: a whole text with its comments, strings and character literals blanked,
    every character staying where it was. */
module StripNoncode {
  import opened RustText
  import opened PythonText

  /** `_raw_string_here`: the `r` at `i` opens a raw string rather than ending an identifier. */
  predicate RawStringHere(text: string, i: nat)
    requires i < |text|
  {
    && !(i > 0 && IsIdent(text[i - 1]) && !(text[i - 1] == 'b' && (i < 2 || !IsIdent(text[i - 2]))))
    && var j := HashRun(text, i + 1);
       j < |text| && text[j] == '"'
  }

  /** `_char_literal_end`: one past a character literal, `i + 1` for a lifetime. */
  function CharLiteralEnd(text: string, i: nat): (k: nat)
    requires i < |text|
    ensures i < k <= |text|
  {
    if PairAt(text, i, '\'', '\\') then
      var j := Seek(text, '\'', i + 2);
      if j == |text| then i + 1 else j + 1
    else if i + 2 < |text| && text[i + 2] == '\'' then i + 3
    else i + 1
  }

  /** The piece of text at `i` is not code. */
  predicate Blanked(text: string, i: nat)
    requires i < |text|
  {
    || PairAt(text, i, '/', '/')
    || PairAt(text, i, '/', '*')
    || text[i] == '"'
    || (text[i] == 'r' && RawStringHere(text, i))
    || text[i] == '\''
  }

  /** One past the piece of text at `i`. */
  function PieceEnd(text: string, i: nat): (k: nat)
    requires i < |text|
    ensures i < k <= |text|
  {
    if PairAt(text, i, '/', '/') then Seek(text, '\n', i)
    else if PairAt(text, i, '/', '*') then BlockEnd(text, i + 2, 1)
    else if text[i] == '"' then StringEnd(text, i + 1)
    else if text[i] == 'r' && RawStringHere(text, i) then
      var j := HashRun(text, i + 1);
      RawEnd(text, j + 1, j - (i + 1))
    else if text[i] == '\'' then CharLiteralEnd(text, i)
    else i + 1
  }

  function Blank(s: string): (r: string)
    ensures |r| == |s|
    ensures forall k | 0 <= k < |s| :: r[k] == if s[k] == '\n' then '\n' else ' '
  {
    seq(|s|, k requires 0 <= k < |s| => if s[k] == '\n' then '\n' else ' ')
  }

  function Piece(text: string, i: nat): (r: string)
    requires i < |text|
    ensures |r| == PieceEnd(text, i) - i
  {
    if Blanked(text, i) then Blank(text[i..PieceEnd(text, i)]) else [text[i]]
  }

  function StripFrom(text: string, i: nat): string
    requires i <= |text|
    decreases |text| - i
  {
    if i == |text| then "" else Piece(text, i) + StripFrom(text, PieceEnd(text, i))
  }

  function Strip(text: string): string {
    StripFrom(text, 0)
  }

  /** No quote, no tick and no comment opener: nothing here can start a piece that is not code. */
  predicate Clean(text: string) {
    && (forall k | 0 <= k < |text| :: text[k] != '"' && text[k] != '\'')
    && (forall k | 0 <= k < |text| - 1 :: text[k] == '/' ==> text[k + 1] != '/' && text[k + 1] != '*')
  }

  /** `out` is `text` with some characters other than newlines turned into spaces. */
  predicate BlankingOf(out: string, text: string) {
    && |out| == |text|
    && forall k | 0 <= k < |text| :: out[k] == text[k] || (out[k] == ' ' && text[k] != '\n')
  }

  lemma PieceShape(text: string, i: nat)
    requires i < |text|
    ensures BlankingOf(Piece(text, i), text[i..PieceEnd(text, i)])
    ensures Clean(Piece(text, i))
  {
    if !Blanked(text, i) { assert PieceEnd(text, i) == i + 1; }
  }

  lemma CleanConcat(s: string, t: string)
    requires Clean(s) && Clean(t)
    requires s != "" && t != "" && s[|s| - 1] == '/' ==> t[0] != '/' && t[0] != '*'
    ensures Clean(s + t)
  {
  }

  lemma {:induction false} StripShape(text: string, i: nat)
    requires i <= |text|
    ensures BlankingOf(StripFrom(text, i), text[i..])
    ensures Clean(StripFrom(text, i))
    decreases |text| - i
  {
    if i == |text| {
    } else {
      var j := PieceEnd(text, i);
      PieceShape(text, i);
      StripShape(text, j);
      assert text[i..] == text[i..j] + text[j..];
      CleanConcat(Piece(text, i), StripFrom(text, j));
    }
  }

  lemma {:induction false} CleanIsKept(text: string, i: nat)
    requires Clean(text) && i <= |text|
    ensures StripFrom(text, i) == text[i..]
    decreases |text| - i
  {
    if i == |text| {
    } else {
      assert !Blanked(text, i);
      CleanIsKept(text, i + 1);
    }
  }

  /** The whole-text lexer, for every text: positions and newlines stay, nothing that could open
      a literal or a comment is left, so a second pass changes nothing; and the texts it leaves
      alone are exactly those that held nothing to blank. */
  lemma StripIsIdempotentBlanking(text: string)
    ensures BlankingOf(Strip(text), text)
    ensures forall k | 0 <= k < |text| :: text[k] == '\n' <==> Strip(text)[k] == '\n'
    ensures Clean(Strip(text))
    ensures Strip(Strip(text)) == Strip(text)
    ensures Strip(text) == text <==> Clean(text)
  {
    StripShape(text, 0);
    assert text[0..] == text;
    CleanIsKept(Strip(text), 0);
    if Clean(text) { CleanIsKept(text, 0); }
  }

  /** `k` is what `text.find(pattern, start)` returns. */
  ghost predicate IsFound(text: string, pattern: string, start: nat, k: int) {
    if k < 0 then forall m: nat | start <= m :: !OccursAt(text, pattern, m)
    else start <= k && OccursAt(text, pattern, k) && forall m: nat | start <= m < k :: !OccursAt(text, pattern, m)
  }

  method Find(text: string, pattern: string, start: nat) returns (k: int)
    ensures IsFound(text, pattern, start, k)
  {
    var m := start;
    while m + |pattern| <= |text|
      invariant start <= m
      invariant forall p: nat | start <= p < m :: !OccursAt(text, pattern, p)
    {
      if OccursAt(text, pattern, m) { return m; }
      m := m + 1;
    }
    return -1;
  }

  lemma FindIsSeek(text: string, c: char, i: nat, j: int)
    requires i <= |text| && IsFound(text, [c], i, j)
    ensures Seek(text, c, i) == if j < 0 then |text| else j
  {
    var k := Seek(text, c, i);
    if k < |text| { assert OccursAt(text, [c], k); }
    if j >= 0 { assert text[j] == text[j..j + 1][0]; }
  }

  /** The closing delimiter of a raw string with this many hashes. */
  predicate IsClose(close: string, hashes: nat) {
    |close| == 1 + hashes && close[0] == '"' && forall m | 1 <= m <= hashes :: close[m] == '#'
  }

  lemma CloseOccurs(text: string, i: nat, hashes: nat, close: string)
    requires i < |text| && IsClose(close, hashes)
    ensures OccursAt(text, close, i) <==> text[i] == '"' && HashesAt(text, i + 1, hashes)
  {
    if OccursAt(text, close, i) {
      assert text[i] == text[i..i + |close|][0];
      forall m | i + 1 <= m < i + 1 + hashes ensures text[m] == '#' {
        assert text[m] == text[i..i + |close|][m - i];
      }
    }
  }

  lemma {:induction false} FindIsRawEnd(text: string, i: nat, hashes: nat, close: string, k: int)
    requires i <= |text| && IsClose(close, hashes) && IsFound(text, close, i, k)
    ensures RawEnd(text, i, hashes) == if k < 0 then |text| else k + |close|
    decreases |text| - i
  {
    if i == |text| {
    } else {
      CloseOccurs(text, i, hashes, close);
      if !OccursAt(text, close, i) {
        FindIsRawEnd(text, i + 1, hashes, close, k);
      }
    }
  }

  /** `_raw_string_here` as its loop runs it. */
  method ScanRawStringHere(text: string, i: nat) returns (opens: bool)
    requires i < |text|
    ensures opens == RawStringHere(text, i)
  {
    if i > 0 && IsIdent(text[i - 1]) && !(text[i - 1] == 'b' && (i < 2 || !IsIdent(text[i - 2]))) {
      return false;
    }
    var j := i + 1;
    while j < |text| && text[j] == '#'
      invariant i + 1 <= j <= |text| && HashRun(text, j) == HashRun(text, i + 1)
    {
      j := j + 1;
    }
    return j < |text| && text[j] == '"';
  }

  /** `_char_literal_end` as its search runs it. */
  method ScanCharLiteralEnd(text: string, i: nat) returns (k: nat)
    requires i < |text|
    ensures k == CharLiteralEnd(text, i)
  {
    if PairAt(text, i, '\'', '\\') {
      var j := Find(text, "'", i + 2);
      FindIsSeek(text, '\'', i + 2, j);
      return if j < 0 then i + 1 else j + 1;
    }
    return if i + 2 < |text| && text[i + 2] == '\'' then i + 3 else i + 1;
  }

  /** `_string_end`: a hash-counting loop and a search for a raw string, an escape-skipping loop
      for an ordinary one. */
  method ScanStringEnd(text: string, i: nat) returns (k: nat)
    requires i < |text|
    requires text[i] == '"' || (text[i] == 'r' && RawStringHere(text, i))
    ensures k == PieceEnd(text, i)
  {
    var n := |text|;
    if text[i] == 'r' {
      var j, close := i + 1, "\"";
      while j < n && text[j] == '#'
        invariant i + 1 <= j <= n && HashRun(text, j) == HashRun(text, i + 1)
        invariant |close| == 1 + (j - (i + 1)) && close[0] == '"'
        invariant forall m | 1 <= m < |close| :: close[m] == '#'
      {
        close := close + "#";
        j := j + 1;
      }
      var end := Find(text, close, j + 1);
      FindIsRawEnd(text, j + 1, j - (i + 1), close, end);
      k := if end < 0 then n else end + |close|;
    } else {
      var j := i + 1;
      while j < n
        invariant i < j && StringEnd(text, j) == StringEnd(text, i + 1)
      {
        if text[j] == '\\' {
          j := j + 2;
          continue;
        }
        if text[j] == '"' { return j + 1; }
        j := j + 1;
      }
      k := n;
    }
  }

  /** The nested-comment loop of `strip_noncode`, entered at the opener. */
  method ScanBlockEnd(text: string, i: nat) returns (j: nat)
    requires PairAt(text, i, '/', '*')
    ensures j == PieceEnd(text, i)
  {
    var depth := 0;
    j := i;
    while j < |text|
      invariant i <= j <= |text|
      invariant j == i ==> depth == 0
      invariant j > i ==> j >= i + 2 && depth >= 1 && BlockEnd(text, j, depth) == PieceEnd(text, i)
      invariant j == i || j > i
    {
      if PairAt(text, j, '/', '*') {
        depth := depth + 1;
        j := j + 2;
      } else if PairAt(text, j, '*', '/') {
        depth := depth - 1;
        j := j + 2;
        if depth == 0 { return; }
      } else {
        j := j + 1;
      }
    }
  }

  /** `blank(upto)`, or the copy of one code character, advances both the output and the index. */
  lemma Advance(text: string, i: nat, out: string)
    requires i < |text|
    ensures out + StripFrom(text, i) == (out + Piece(text, i)) + StripFrom(text, PieceEnd(text, i))
  {
  }

  /** `strip_noncode`. */
  method StripNoncode(text: string) returns (out: string)
    ensures out == Strip(text)
  {
    out := "";
    var i, n := 0, |text|;
    while i < n
      invariant 0 <= i <= n
      invariant out + StripFrom(text, i) == Strip(text)
    {
      var c := text[i];
      var upto: nat;
      var raw := false;
      if c == 'r' { raw := ScanRawStringHere(text, i); }
      Advance(text, i, out);
      if PairAt(text, i, '/', '/') {
        var j := Find(text, "\n", i);
        FindIsSeek(text, '\n', i, j);
        upto := if j < 0 then n else j;
      } else if PairAt(text, i, '/', '*') {
        upto := ScanBlockEnd(text, i);
      } else if c == '"' || raw {
        upto := ScanStringEnd(text, i);
      } else if c == '\'' {
        upto := ScanCharLiteralEnd(text, i);
      } else {
        out := out + [c];
        i := i + 1;
        continue;
      }
      assert upto == PieceEnd(text, i);
      out := out + Blank(text[i..upto]);
      i := upto;
    }
  }
}

/** `_BraceScan`: the line-streaming lexer.  It reads one line at a time and carries across lines
    whatever literal or comment the last line left open. */
module BraceScan {
  import opened RustText

  datatype Mode = Code | Str | Raw | Block

  datatype State = State(mode: Mode, hashes: nat, depth: int)

  const START := State(Code, 0, 0)

  /** Where a step leaves the scan: its state, the index it resumes at, and what it emitted. */
  datatype Moved = Moved(state: State, next: nat, code: string)

  /** `str.isalnum`; `wide` holds the letters and digits outside ASCII. */
  predicate IsAlnum(c: char, wide: set<char>) {
    (IsIdent(c) && c != '_') || c in wide
  }

  /** The raw string prefix at `i`, after an optional `b`: the index of its first hash or quote. */
  function RawPrefix(line: string, i: nat): (j: nat)
    requires i < |line|
    ensures j <= |line|
  {
    var j := if line[i] == 'b' then i + 1 else i;
    if j < |line| && line[j] == 'r' then j + 1 else 0
  }

  predicate OpensRaw(line: string, i: nat, wide: set<char>)
    requires i < |line|
  {
    && !(i > 0 && (IsAlnum(line[i - 1], wide) || line[i - 1] == '_'))
    && var j := RawPrefix(line, i);
       j > 0 && HashRun(line, j) < |line| && line[HashRun(line, j)] == '"'
  }

  /** `_char_literal`: the index after `'x'` or an escape, or a lifetime's tick emitted. */
  function CharLiteral(line: string, i: nat): (m: (nat, string))
    requires i < |line| && line[i] == '\''
    ensures i < m.0
  {
    if i + 1 < |line| && line[i + 1] == '\\' then
      (if i + 3 <= |line| then Seek(line, '\'', i + 3) + 1 else i + 4, "")
    else if i + 2 < |line| && line[i + 2] == '\'' then (i + 3, "")
    else (i + 1, "'")
  }

  /** `_code` */
  function CodeStep(st: State, line: string, i: nat, wide: set<char>): (m: Moved)
    requires i < |line|
    ensures i < m.next
  {
    if PairAt(line, i, '/', '/') then Moved(st, |line|, "")
    else if PairAt(line, i, '/', '*') then Moved(st.(mode := Block, depth := 1), i + 2, "")
    else if OpensRaw(line, i, wide) then
      var j := RawPrefix(line, i);
      Moved(st.(mode := Raw, hashes := HashRun(line, j) - j), HashRun(line, j) + 1, "")
    else if line[i] == '"' then Moved(st.(mode := Str), i + 1, "")
    else if line[i] == '\'' then var (next, code) := CharLiteral(line, i); Moved(st, next, code)
    else Moved(st, i + 1, [line[i]])
  }

  /** `_str` */
  function StrStep(st: State, line: string, i: nat): (m: Moved)
    requires i < |line|
    ensures i < m.next
  {
    if line[i] == '\\' then Moved(st, i + 2, "")
    else Moved(if line[i] == '"' then st.(mode := Code) else st, i + 1, "")
  }

  /** `_raw` */
  function RawStep(st: State, line: string, i: nat): (m: Moved)
    requires i < |line|
    ensures i < m.next
  {
    if line[i] == '"' && HashesAt(line, i + 1, st.hashes) then Moved(st.(mode := Code), i + 1 + st.hashes, "")
    else Moved(st, i + 1, "")
  }

  /** `_block` */
  function BlockStep(st: State, line: string, i: nat): (m: Moved)
    requires i < |line|
    ensures i < m.next
  {
    if PairAt(line, i, '/', '*') then Moved(st.(depth := st.depth + 1), i + 2, "")
    else if PairAt(line, i, '*', '/') then
      Moved(st.(depth := st.depth - 1, mode := if st.depth - 1 <= 0 then Code else Block), i + 2, "")
    else Moved(st, i + 1, "")
  }

  function Step(st: State, line: string, i: nat, wide: set<char>): (m: Moved)
    requires i < |line|
    ensures i < m.next
  {
    match st.mode
    case Code => CodeStep(st, line, i, wide)
    case Str => StrStep(st, line, i)
    case Raw => RawStep(st, line, i)
    case Block => BlockStep(st, line, i)
  }

  /** What one line yields from index `i` on, and the state it leaves. */
  function FeedFrom(st: State, line: string, i: nat, wide: set<char>): (r: (State, string))
    decreases if i < |line| then |line| - i else 0
  {
    if i >= |line| then (st, "")
    else
      var m := Step(st, line, i, wide);
      var (end, code) := FeedFrom(m.state, line, m.next, wide);
      (end, m.code + code)
  }

  lemma FeedNext(st: State, line: string, i: nat, wide: set<char>, out: string)
    requires i < |line|
    ensures var m := Step(st, line, i, wide);
            && i < m.next && (st.mode != Code ==> m.code == "")
            && FeedFrom(st, line, i, wide).0 == FeedFrom(m.state, line, m.next, wide).0
            && out + FeedFrom(st, line, i, wide).1 == (out + m.code) + FeedFrom(m.state, line, m.next, wide).1
            && out + "" == out
  {
    hide CodeStep;
  }

  lemma FeedDone(st: State, line: string, i: nat, wide: set<char>)
    requires i >= |line|
    ensures FeedFrom(st, line, i, wide) == (st, "")
  {
  }

  class Scanner {
    const wide: set<char>
    var mode: Mode
    var hashes: nat
    var depth: int

    ghost function Now(): State
      reads this
    {
      State(mode, hashes, depth)
    }

    constructor (wide: set<char>)
      ensures Now() == START && this.wide == wide
    {
      this.wide := wide;
      mode, hashes, depth := Code, 0, 0;
    }

    method Feed(line: string) returns (out: string)
      modifies this
      ensures Now() == FeedFrom(old(Now()), line, 0, wide).0
      ensures out == FeedFrom(old(Now()), line, 0, wide).1
    {
      hide FeedFrom, CodeStep, StrStep, RawStep, BlockStep;
      ghost var goal := FeedFrom(Now(), line, 0, wide);
      out := "";
      var i: nat := 0;
      while i < |line|
        invariant FeedFrom(Now(), line, i, wide).0 == goal.0
        invariant out + FeedFrom(Now(), line, i, wide).1 == goal.1
        decreases if i < |line| then |line| - i else 0
      {
        FeedNext(Now(), line, i, wide, out);
        match mode {
          case Code => i, out := CodeAt(line, i, out);
          case Str => i := StrAt(line, i);
          case Raw => i := RawAt(line, i);
          case Block => i := BlockAt(line, i);
        }
      }
      FeedDone(Now(), line, i, wide);
    }

    method CodeAt(line: string, i: nat, out: string) returns (next: nat, out': string)
      requires i < |line|
      modifies this
      ensures var m := CodeStep(old(Now()), line, i, wide);
              Now() == m.state && next == m.next && out' == out + m.code
    {
      out' := out;
      if PairAt(line, i, '/', '/') { return |line|, out'; }
      if PairAt(line, i, '/', '*') {
        mode, depth := Block, 1;
        return i + 2, out';
      }
      var resume := OpenRaw(line, i);
      if resume > 0 { return resume, out'; }
      var c := line[i];
      if c == '"' {
        mode := Str;
        return i + 1, out';
      }
      if c == '\'' {
        next, out' := CharLiteralAt(line, i, out');
        return;
      }
      return i + 1, out' + [c];
    }

    /** `_open_raw`; 0 stands for `None`. */
    method OpenRaw(line: string, i: nat) returns (next: nat)
      requires i < |line|
      modifies this
      ensures if OpensRaw(line, i, wide) then
                var j := RawPrefix(line, i);
                && next == HashRun(line, j) + 1
                && Now() == old(Now()).(mode := Raw, hashes := HashRun(line, j) - j)
              else next == 0 && Now() == old(Now())
    {
      if i > 0 && (IsAlnum(line[i - 1], wide) || line[i - 1] == '_') { return 0; }
      var j := i;
      if line[j] == 'b' { j := j + 1; }
      if !(j < |line| && line[j] == 'r') { return 0; }
      j := j + 1;
      var start := j;
      while j < |line| && line[j] == '#'
        invariant start <= j <= |line| && HashRun(line, j) == HashRun(line, start)
      {
        j := j + 1;
      }
      if !(j < |line| && line[j] == '"') { return 0; }
      mode, hashes := Raw, j - start;
      return j + 1;
    }

    method StrAt(line: string, i: nat) returns (next: nat)
      requires i < |line|
      modifies this
      ensures Moved(Now(), next, "") == StrStep(old(Now()), line, i)
    {
      var c := line[i];
      if c == '\\' { return i + 2; }
      if c == '"' { mode := Code; }
      return i + 1;
    }

    method RawAt(line: string, i: nat) returns (next: nat)
      requires i < |line|
      modifies this
      ensures Moved(Now(), next, "") == RawStep(old(Now()), line, i)
    {
      if line[i] != '"' { return i + 1; }
      if !HashesAt(line, i + 1, hashes) { return i + 1; }
      mode := Code;
      return i + 1 + hashes;
    }

    method BlockAt(line: string, i: nat) returns (next: nat)
      requires i < |line| && mode == Block
      modifies this
      ensures Moved(Now(), next, "") == BlockStep(old(Now()), line, i)
    {
      if PairAt(line, i, '/', '*') {
        depth := depth + 1;
        return i + 2;
      }
      if PairAt(line, i, '*', '/') {
        depth := depth - 1;
        if depth <= 0 { mode := Code; }
        return i + 2;
      }
      return i + 1;
    }

    method CharLiteralAt(line: string, i: nat, out: string) returns (next: nat, out': string)
      requires i < |line| && line[i] == '\''
      ensures next == CharLiteral(line, i).0 && out' == out + CharLiteral(line, i).1
    {
      if i + 1 < |line| && line[i + 1] == '\\' {
        var j := i + 3;
        while j < |line| && line[j] != '\''
          invariant i + 3 <= j
          invariant i + 3 <= |line| ==> j <= |line| && Seek(line, '\'', j) == Seek(line, '\'', i + 3)
          invariant i + 3 > |line| ==> j == i + 3
          decreases |line| - j
        {
          j := j + 1;
        }
        return j + 1, out;
      }
      if i + 2 < |line| && line[i + 2] == '\'' { return i + 3, out; }
      return i + 1, out + "'";
    }
  }
}

/** What both Rust lexers read the same way: where a literal or a comment that is already
    open ends, measured as an index into the text.  Every end is one past the last character
    of the construct, and is the end of the text when the construct is never closed. */
module RustText {

  /** The ASCII identifier characters. */
  predicate IsIdent(c: char) {
    'a' <= c <= 'z' || 'A' <= c <= 'Z' || '0' <= c <= '9' || c == '_'
  }

  predicate PairAt(text: string, i: nat, first: char, second: char) {
    i + 1 < |text| && text[i] == first && text[i + 1] == second
  }

  predicate HashesAt(text: string, i: nat, count: nat) {
    i + count <= |text| && forall k | i <= k < i + count :: text[k] == '#'
  }

  /** The first index at or after `i` that holds `c`, or the end of the text. */
  function Seek(text: string, c: char, i: nat): (k: nat)
    requires i <= |text|
    ensures i <= k <= |text|
    ensures k < |text| ==> text[k] == c
    ensures forall m | i <= m < k :: text[m] != c
    decreases |text| - i
  {
    if i == |text| || text[i] == c then i else Seek(text, c, i + 1)
  }

  /** The first index at or after `i` that does not hold a hash. */
  function HashRun(text: string, i: nat): (k: nat)
    requires i <= |text|
    ensures i <= k <= |text|
    ensures HashesAt(text, i, k - i)
    ensures k < |text| ==> text[k] != '#'
    decreases |text| - i
  {
    if i < |text| && text[i] == '#' then HashRun(text, i + 1) else i
  }

  /** The end of an ordinary string literal whose body goes on at `i`. */
  function StringEnd(text: string, i: nat): (k: nat)
    ensures k <= |text|
    ensures if i <= |text| then i <= k else k == |text|
    decreases if i < |text| then |text| - i else 0
  {
    if i >= |text| then |text|
    else if text[i] == '\\' then StringEnd(text, i + 2)
    else if text[i] == '"' then i + 1
    else StringEnd(text, i + 1)
  }

  /** The end of a raw string literal with `hashes` hashes whose body goes on at `i`. */
  function RawEnd(text: string, i: nat, hashes: nat): (k: nat)
    requires i <= |text|
    ensures i <= k <= |text|
    decreases |text| - i
  {
    if i == |text| then i
    else if text[i] == '"' && HashesAt(text, i + 1, hashes) then i + 1 + hashes
    else RawEnd(text, i + 1, hashes)
  }

  /** The end of a block comment that goes on at `i` with `depth` levels open. */
  function BlockEnd(text: string, i: nat, depth: int): (k: nat)
    requires i <= |text|
    ensures i <= k <= |text|
    decreases |text| - i
  {
    if i == |text| then i
    else if PairAt(text, i, '/', '*') then BlockEnd(text, i + 2, depth + 1)
    else if PairAt(text, i, '*', '/') then
      if depth <= 1 then i + 2 else BlockEnd(text, i + 2, depth - 1)
    else BlockEnd(text, i + 1, depth)
  }
}

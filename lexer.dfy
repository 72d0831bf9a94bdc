/**
 * The tokenizer: a cursor into a NUL-terminated buffer that skips
 * non-identifier bytes and returns the next maximal run of identifier bytes.
 * The functions below say where each loop of the tokenizer stops; the class
 * Tokenizer runs those loops on its cursor.
 */
module Lexer {
  import opened Strings

  /** A token of a scanned file: its span and the hash of its text. */
  datatype Token = Token(value: Span, hash: bv32)

  /** Where the skipping loop stops: the first index at or after i holding NUL
      or an identifier byte. */
  function SkipEnd(buf: seq<char>, i: nat): (j: nat)
    requires Terminated(buf) && i < |buf|
    decreases |buf| - i
    ensures i <= j < |buf|
    ensures buf[j] == Nul || IsIdentifier(buf[j])
    ensures forall k :: i <= k < j ==> buf[k] != Nul && !IsIdentifier(buf[k])
  {
    if buf[i] != Nul && (IsWhitespaceOrNewline(buf[i]) || !IsIdentifier(buf[i])) then
      SkipEnd(buf, i + 1)
    else
      i
  }

  /** Where the run loop stops: the first index at or after i that does not
      hold an identifier byte (the NUL is not one). */
  function RunEnd(buf: seq<char>, i: nat): (j: nat)
    requires Terminated(buf) && i < |buf|
    decreases |buf| - i
    ensures i <= j < |buf|
    ensures !IsIdentifier(buf[j])
    ensures forall k :: i <= k < j ==> IsIdentifier(buf[k])
  {
    if buf[i] != Nul && IsIdentifier(buf[i]) then RunEnd(buf, i + 1) else i
  }

  /** Where AdvanceToEndOfLine stops: the first NUL or newline at or after i. */
  function LineEnd(buf: seq<char>, i: nat): (j: nat)
    requires Terminated(buf) && i < |buf|
    decreases |buf| - i
    ensures i <= j < |buf|
    ensures buf[j] == Nul || IsNewline(buf[j])
    ensures forall k :: i <= k < j ==> buf[k] != Nul && !IsNewline(buf[k])
  {
    if buf[i] != Nul && !IsNewline(buf[i]) then LineEnd(buf, i + 1) else i
  }

  /** The span ParseToken returns from cursor `at`. */
  function NextToken(buf: seq<char>, at: nat): (t: Span)
    requires Terminated(buf) && at < |buf|
    ensures at <= t.start && t.End() < |buf|
    ensures forall k :: at <= k < t.start ==> buf[k] != Nul && !IsIdentifier(buf[k])
    ensures forall k :: t.start <= k < t.End() ==> IsIdentifier(buf[k])
    ensures !IsIdentifier(buf[t.End()])
    ensures t.len == 0 <==> buf[t.start] == Nul
  {
    var s := SkipEnd(buf, at);
    Span(s, RunEnd(buf, s) - s)
  }

  /** The span ParseArbToken returns from cursor `at`: the same run, extended
      by two bytes when a single whitespace byte and a '*' follow it. */
  function NextArbToken(buf: seq<char>, at: nat): (t: Span)
    requires Terminated(buf) && at < |buf|
    ensures t.start == NextToken(buf, at).start && t.End() < |buf|
    ensures var run := NextToken(buf, at);
      if IsWhitespace(buf[run.End()]) && buf[run.End() + 1] == '*' then t.len == run.len + 2
      else t.len == run.len
    ensures forall k :: at <= k < t.End() ==> buf[k] != Nul
    ensures NoNul(Text(buf, t))
    ensures buf[at] != Nul ==> at < t.End()
  {
    var s := SkipEnd(buf, at);
    var e := RunEnd(buf, s);
    if IsWhitespace(buf[e]) && buf[e + 1] == '*' then Span(s, e - s + 2) else Span(s, e - s)
  }

  /** The tokenizer's state: the buffer it reads and its cursor. */
  class Tokenizer {
    const buf: seq<char>
    var at: nat

    ghost predicate Valid()
      reads this
    {
      Terminated(buf) && at < |buf|
    }

    constructor (data: seq<char>)
      requires Terminated(data)
      ensures Valid() && buf == data && at == 0
    {
      buf := data;
      at := 0;
    }

    /** True while the cursor has not reached a NUL. */
    function AtEnd(): bool
      reads this
      requires Valid()
    {
      buf[at] == Nul
    }

    method ParseToken() returns (tok: Token)
      requires Valid()
      modifies this
      ensures Valid()
      ensures tok.value == NextToken(buf, old(at)) && at == tok.value.End()
      ensures tok.hash == Hash(Text(buf, tok.value))
    {
      while buf[at] != Nul && (IsWhitespaceOrNewline(buf[at]) || !IsIdentifier(buf[at]))
        invariant old(at) <= at < |buf|
        invariant SkipEnd(buf, at) == SkipEnd(buf, old(at))
        decreases |buf| - at
      {
        at := at + 1;
      }
      var start := at;
      while buf[at] != Nul && IsIdentifier(buf[at])
        invariant start <= at < |buf|
        invariant RunEnd(buf, at) == RunEnd(buf, start)
        decreases |buf| - at
      {
        at := at + 1;
      }
      var value := Span(start, at - start);
      var h := GetStringHash(buf, value);
      tok := Token(value, h);
    }

    method ParseArbToken() returns (value: Span)
      requires Valid()
      modifies this
      ensures Valid()
      ensures value == NextArbToken(buf, old(at)) && at == value.End()
    {
      while buf[at] != Nul && (IsWhitespaceOrNewline(buf[at]) || !IsIdentifier(buf[at]))
        invariant old(at) <= at < |buf|
        invariant SkipEnd(buf, at) == SkipEnd(buf, old(at))
        decreases |buf| - at
      {
        at := at + 1;
      }
      var start := at;
      while buf[at] != Nul && IsIdentifier(buf[at])
        invariant start <= at < |buf|
        invariant RunEnd(buf, at) == RunEnd(buf, start)
        decreases |buf| - at
      {
        at := at + 1;
      }
      value := Span(start, at - start);
      if IsWhitespace(buf[at]) && buf[at + 1] == '*' {
        at := at + 2;
        value := Span(start, value.len + 2);
      }
    }

    method AdvanceToEndOfLine()
      requires Valid()
      modifies this
      ensures Valid()
      ensures at == LineEnd(buf, old(at))
    {
      while buf[at] != Nul && !IsNewline(buf[at])
        invariant old(at) <= at < |buf|
        invariant LineEnd(buf, at) == LineEnd(buf, old(at))
        decreases |buf| - at
      {
        at := at + 1;
      }
    }
  }
}

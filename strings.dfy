/**
 * Text helpers of the header generator: the character classes of its
 * tokenizer, spans into a text buffer, the 32-bit symbol hash, and the prefix
 * tests that classify tokens. A `char` here stands for one byte of the C
 * buffers; the buffers the tokenizer walks end in a NUL byte.
 */
module Strings {

  const Nul: char := '\0'

  predicate IsWhitespace(c: char) {
    c == ' ' || c == '\t' || c == '\U{000B}' || c == '\U{000C}'
  }

  predicate IsNewline(c: char) {
    c == '\r' || c == '\n'
  }

  predicate IsWhitespaceOrNewline(c: char) {
    IsNewline(c) || IsWhitespace(c)
  }

  /** The identifier class of the tokenizer: letters, digits, '_', '#' and '*'. */
  predicate IsIdentifier(c: char) {
    ('a' <= c <= 'z') || ('A' <= c <= 'Z') || ('0' <= c <= '9') ||
    c == '_' || c == '#' || c == '*'
  }

  predicate IsUpperCase(c: char) {
    'A' <= c <= 'Z'
  }

  /** A buffer as the tokenizer sees it: at least one byte, the last one NUL. */
  predicate Terminated(buf: seq<char>) {
    |buf| > 0 && buf[|buf| - 1] == Nul
  }

  /** A non-owning view into a buffer: an offset and a length. */
  datatype Span = Span(start: nat, len: nat) {
    function End(): nat { start + len }
  }

  /** The unset span of a zero-initialised record (a null pointer, length 0). */
  const NoSpan: Span := Span(0, 0)

  function Text(buf: seq<char>, sp: Span): seq<char>
    requires sp.End() <= |buf|
  {
    buf[sp.start..sp.End()]
  }

  predicate NoNul(s: seq<char>) {
    forall i :: 0 <= i < |s| ==> s[i] != Nul
  }

  // ---------------------------------------------------------------------------
  // The symbol hash: start from 1, then for every byte multiply by the prime
  // 0x01000193 modulo 2^32 and exclusive-or the byte in.

  const HashPrime: bv32 := 0x01000193

  /** The byte a character stands for, widened to 32 bits. */
  function Byte(c: char): bv32 {
    (c as bv32) & 0xFF
  }

  function HashStep(h: bv32, c: char): bv32 {
    (h * HashPrime) ^ Byte(c)
  }

  /** The left fold of HashStep over `s`, starting from `h`. */
  function HashFrom(h: bv32, s: seq<char>): bv32
    decreases |s|
  {
    if s == [] then h else HashFrom(HashStep(h, s[0]), s[1..])
  }

  function Hash(s: seq<char>): bv32 {
    HashFrom(1, s)
  }

  /** Hashing a concatenation continues from the hash of its first part. */
  lemma {:induction false} HashFromAppend(h: bv32, s: seq<char>, t: seq<char>)
    ensures HashFrom(h, s + t) == HashFrom(HashFrom(h, s), t)
    decreases |s|
  {
    if s == [] {
      assert s + t == t;
    } else {
      assert (s + t)[1..] == s[1..] + t;
      HashFromAppend(HashStep(h, s[0]), s[1..], t);
    }
  }

  /** One more byte is one more HashStep. */
  lemma HashSnoc(s: seq<char>, c: char)
    ensures Hash(s + [c]) == HashStep(Hash(s), c)
  {
    HashFromAppend(1, s, [c]);
    assert [c][1..] == [];
  }

  /** GetStringHash: the loop over exactly `sp.len` bytes of the buffer. */
  method GetStringHash(buf: seq<char>, sp: Span) returns (h: bv32)
    requires sp.End() <= |buf|
    ensures h == Hash(Text(buf, sp))
    ensures sp.len == 0 ==> h == 1
  {
    h := 1;
    var idx := 0;
    while idx < sp.len
      invariant idx <= sp.len
      invariant h == Hash(buf[sp.start..sp.start + idx])
    {
      var c := buf[sp.start + idx];
      ghost var done := buf[sp.start..sp.start + idx];
      assert buf[sp.start..sp.start + idx + 1] == done + [c];
      HashSnoc(done, c);
      h := HashStep(h, c);
      idx := idx + 1;
    }
  }

  // ---------------------------------------------------------------------------
  // Prefix tests. The second argument is a C string literal or an ignore-list
  // entry, neither of which holds a NUL.

  /** The comparison loop of StartsWith from position i: it stops at the end of
      either string, so only the first min(|tok|, |prefix|) characters count. */
  function AgreeFrom(tok: seq<char>, prefix: seq<char>, i: nat): (r: bool)
    requires i <= |tok|
    decreases |tok| - i
    ensures r <==> forall k :: i <= k < |tok| && k < |prefix| ==> tok[k] == prefix[k]
  {
    if i == |tok| || i >= |prefix| then true
    else tok[i] == prefix[i] && AgreeFrom(tok, prefix, i + 1)
  }

  function StartsWith(tok: seq<char>, prefix: seq<char>): (r: bool)
    ensures r <==> |tok| > 0 && forall k :: 0 <= k < |tok| && k < |prefix| ==> tok[k] == prefix[k]
  {
    |tok| > 0 && AgreeFrom(tok, prefix, 0)
  }

  /** The index at which the comparison loop of Equal stops, starting at i. */
  function MatchLength(tok: seq<char>, v: seq<char>, i: nat): (n: nat)
    requires i <= |tok| && i <= |v|
    decreases |tok| - i
    ensures i <= n <= |tok| && n <= |v|
    ensures forall k :: i <= k < n ==> tok[k] == v[k]
    ensures n < |tok| && n < |v| ==> tok[n] != v[n]
  {
    if i == |tok| || i == |v| || tok[i] != v[i] then i else MatchLength(tok, v, i + 1)
  }

  /** Equal is a prefix test: `tok` is non-empty and `v` starts with it. */
  function Equal(tok: seq<char>, v: seq<char>): (r: bool)
    ensures r <==> 0 < |tok| <= |v| && tok == v[..|tok|]
  {
    |tok| > 0 && MatchLength(tok, v, 0) == |tok|
  }

  // ---------------------------------------------------------------------------
  // Upper-casing of function names for the PFN...PROC typedef names.

  /** toupper in the C locale. */
  function ToUpper(c: char): char {
    if 'a' <= c <= 'z' then (c as int - 32) as char else c
  }

  function Upper(s: seq<char>): (r: seq<char>)
    ensures |r| == |s|
    ensures forall i :: 0 <= i < |s| ==> r[i] == ToUpper(s[i])
    ensures forall i :: 0 <= i < |r| ==> !('a' <= r[i] <= 'z')
  {
    if s == [] then [] else [ToUpper(s[0])] + Upper(s[1..])
  }

  /** UpperCase writes the upper-cased name into a caller's buffer, then a NUL. */
  method UpperCase(output: array<char>, s: seq<char>)
    requires |s| < output.Length
    modifies output
    ensures output[..|s|] == Upper(s)
    ensures output[|s|] == Nul
    ensures forall k :: |s| < k < output.Length ==> output[k] == old(output[k])
  {
    var i := 0;
    while i < |s|
      invariant i <= |s|
      invariant forall k :: 0 <= k < i ==> output[k] == ToUpper(s[k])
      invariant forall k :: i <= k < output.Length ==> output[k] == old(output[k])
    {
      output[i] := ToUpper(s[i]);
      i := i + 1;
    }
    output[|s|] := Nul;
  }
}

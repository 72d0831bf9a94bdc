/**
 * Emission of the generated header. After sorting, the generator writes a
 * fixed preamble, the `#define` lines of every discovered constant, one
 * function-pointer typedef per discovered function and, when boilerplate is
 * on, the loader: aliases, pointer variables, the platform loader and an
 * init function that looks every pointer up. A discovered symbol produces a
 * line only when the registry holds its hash. Output is a character
 * sequence that grows by appending, in the order the file is written.
 */
module Emit {
  import opened Strings
  import opened Tables
  import opened Registry
  import opened Sorting

  /** The name prefix of the generated function-pointer variables. */
  const ProcPrefix: seq<char> := "GEN_"

  const Spacer: seq<char> := "\n\n"

  /** The lines that open and close the header's include guard. */
  const OpenGuard: seq<char> := "#ifndef INCLUDE_OPENGL_GENERATED_H\n"
  const CloseGuard: seq<char> := "#endif // INCLUDE_OPENGL_GENERATED_H\n"

  // ---------------------------------------------------------------------------
  // The timestamp as `%llu` prints it.

  predicate IsDigit(c: char) {
    '0' <= c <= '9'
  }

  function Digit(d: nat): char
    requires d < 10
  {
    ('0' as int + d) as char
  }

  /** Decimal digits of n, most significant first, without leading zeros. */
  function Decimal(n: nat): (r: seq<char>)
    ensures r != [] && forall i :: 0 <= i < |r| ==> IsDigit(r[i])
  {
    if n < 10 then [Digit(n)] else Decimal(n / 10) + [Digit(n % 10)]
  }

  function DigitValue(c: char): nat
    requires IsDigit(c)
  {
    c as int - '0' as int
  }

  /** The number a digit string denotes. */
  function DigitsValue(s: seq<char>): nat
    requires forall i :: 0 <= i < |s| ==> IsDigit(s[i])
  {
    if s == [] then 0 else DigitsValue(s[..|s| - 1]) * 10 + DigitValue(s[|s| - 1])
  }

  /** Decimal is read back as the number it prints, and starts with 0 only
      for 0 itself. */
  lemma {:induction false} DecimalValue(n: nat)
    ensures DigitsValue(Decimal(n)) == n
    ensures Decimal(n)[0] == '0' ==> n == 0
  {
    if 10 <= n {
      DecimalValue(n / 10);
      var r := Decimal(n);
      assert r[..|r| - 1] == Decimal(n / 10);
      assert r[0] == Decimal(n / 10)[0];
    }
  }

  // ---------------------------------------------------------------------------
  // The fixed blocks, with the user's prefix substituted for every `%s`.

  /** A `printf` template: its pieces joined by `arg` at every `%s`. */
  function Fill(pieces: seq<seq<char>>, arg: seq<char>): seq<char>
    requires pieces != []
  {
    if |pieces| == 1 then pieces[0] else pieces[0] + arg + Fill(pieces[1..], arg)
  }

  const PreambleNote: seq<char> :=
    "#define INCLUDE_OPENGL_GENERATED_H\n\n" +
    "// NOTE: This file is generated automatically. Do not edit.\n" +
    "// @GENERATED: "

  function Preamble(timestamp: nat): seq<char> {
    OpenGuard + (PreambleNote + Decimal(timestamp) + Spacer)
  }

  /** The version record and the init prototype (boilerplate only). */
  const VersionTemplate: seq<seq<char>> := [
    "typedef struct ",
    "OpenGLVersion\n" +
    "{\n" +
    "  int Major;\n" +
    "  int Minor;\n" +
    "} ",
    "OpenGLVersion;\n" +
    "// Call this function to initialize OpenGL.\n" +
    "// Example:\n" +
    "//\n" +
    "//    ",
    "OpenGLVersion Version;\n" +
    "//    ",
    "OpenGLInit(&Version);\n" +
    "//    if(Version.Major < 3)\n" +
    "//    {\n" +
    "//       printf(\"OpenGL 3 or above required.\\n\");\n" +
    "//       return 0;\n" +
    "//    }\n" +
    "//\n" +
    "static void ",
    "OpenGLInit(",
    "OpenGLVersion* Version);\n\n\n"]

  function VersionBlock(prefix: seq<char>): seq<char> {
    Fill(VersionTemplate, prefix)
  }

  /** Calling-convention macros and the base GL types. */
  const BaseTypes: seq<char> :=
    "#ifndef APIENTRY\n" +
    "#define APIENTRY\n" +
    "#endif\n" +
    "#ifndef APIENTRYP\n" +
    "#define APIENTRYP APIENTRY *\n" +
    "#endif\n" +
    "#ifndef GLAPI\n" +
    "#define GLAPI extern\n" +
    "#endif\n\n" +
    "typedef void GLvoid;\n" +
    "typedef unsigned int GLenum;\n" +
    "typedef float GLfloat;\n" +
    "typedef int GLint;\n" +
    "typedef int GLsizei;\n" +
    "typedef unsigned int GLbitfield;\n" +
    "typedef double GLdouble;\n" +
    "typedef unsigned int GLuint;\n" +
    "typedef unsigned char GLboolean;\n" +
    "typedef unsigned char GLubyte;\n" +
    "typedef char GLchar;\n" +
    "typedef short GLshort;\n" +
    "typedef signed char GLbyte;\n" +
    "typedef unsigned short GLushort;\n" +
    "typedef ptrdiff_t GLsizeiptr;\n" +
    "typedef ptrdiff_t GLintptr;\n" +
    "typedef float GLclampf;\n" +
    "typedef double GLclampd;\n" +
    "typedef unsigned short GLhalf;\n\n"

  const DebugProc: seq<char> :=
    "typedef void (APIENTRY *GLDEBUGPROC)(GLenum source,GLenum type,GLuint id,GLenum severity,GLsizei length,const GLchar *message,const void *userParam)" +
    ";\n"

  const InitHeadTemplate: seq<seq<char>> := [
    "\n\nvoid ",
    "OpenGLInit(",
    "OpenGLVersion* Version)\n" +
    "{\n" +
    "  ",
    "LoadOpenGL();\n\n"]

  function InitHead(prefix: seq<char>): seq<char> {
    Fill(InitHeadTemplate, prefix)
  }

  const InitTailTemplate: seq<seq<char>> := [
    "\n  ",
    "UnloadOpenGL();\n" +
    "\n" +
    "  Version->Major = 0;\n" +
    "  Version->Minor = 0;\n" +
    "  if (glGetIntegerv)\n" +
    "  {\n" +
    "    glGetIntegerv(GL_MAJOR_VERSION, &Version->Major);\n" +
    "    glGetIntegerv(GL_MINOR_VERSION, &Version->Minor);\n" +
    "  }\n" +
    "}\n\n"]

  function InitTail(prefix: seq<char>): seq<char> {
    Fill(InitTailTemplate, prefix) + CloseGuard
  }

  // ---------------------------------------------------------------------------
  // One line per registry record.

  /** The five per-symbol line formats: a constant's declaration line, and a
      function's typedef, alias, pointer variable and init assignment. */
  datatype Format = MacroLine | TypedefLine | AliasLine | PointerLine | InitLine

  /** Every span of a record lies in the buffer, with a byte after the line. */
  ghost predicate InBuffer(buf: seq<char>, e: ArbInfo) {
    e.line.End() < |buf| && e.returnType.End() <= |buf| &&
    e.functionName.End() <= |buf| && e.parameters.End() <= |buf|
  }

  /** Every occupied registry slot's record lies in the buffer. */
  ghost predicate Fits(buf: seq<char>, arb: seq<Slot<ArbInfo>>) {
    forall p :: 0 <= p < |arb| && arb[p].hash != 0 ==> InBuffer(buf, arb[p].data)
  }

  /** The type of a function's pointer: PFN, the upper-cased name, PROC. */
  function PointerType(name: seq<char>): seq<char> {
    "PFN" + Upper(name) + "PROC"
  }

  /** The line written for a record. A constant's line is written with one
      byte more than its length: the byte that ended it. */
  function Line(f: Format, buf: seq<char>, e: ArbInfo, prefix: seq<char>): seq<char>
    requires InBuffer(buf, e)
  {
    var name := Text(buf, e.functionName);
    match f
    case MacroLine => buf[e.line.start..e.line.End() + 1]
    case TypedefLine =>
      "typedef " + Text(buf, e.returnType) + " (APIENTRYP " + PointerType(name) + ") " +
      Text(buf, e.parameters) + "\n"
    case AliasLine => "#define " + name + " " + ProcPrefix + name + "\n"
    case PointerLine => PointerType(name) + " " + ProcPrefix + name + ";\n"
    case InitLine =>
      "  " + ProcPrefix + name + " = (" + PointerType(name) + ")" + prefix +
      "OpenGLGetProc(\"" + name + "\");\n"
  }

  /** A registry record satisfies the emission's needs. */
  lemma InvFits(buf: seq<char>, reg: Registry)
    requires Inv(buf, reg)
    ensures Fits(buf, reg.slots)
  {
    forall p | 0 <= p < |reg.slots| && reg.slots[p].hash != 0
      ensures InBuffer(buf, reg.slots[p].data)
    {
      assert WellFormed(buf, reg.slots[p]);
    }
  }

  /** A constant's line is its declaration line verbatim followed by the byte
      that ended it in the registry text: a line break, or the final NUL when
      the declaration is the last line and has none. */
  lemma MacroLineVerbatim(buf: seq<char>, e: ArbInfo, prefix: seq<char>)
    requires LineShape(buf, e)
    ensures InBuffer(buf, e) ==>
      var r := Line(MacroLine, buf, e, prefix);
      r == Text(buf, e.line) + [buf[e.line.End()]] &&
      (r[|r| - 1] == Nul || IsNewline(r[|r| - 1])) &&
      NoNul(r[..|r| - 1])
  {
    if InBuffer(buf, e) {
      var r := Line(MacroLine, buf, e, prefix);
      assert r[..|r| - 1] == Text(buf, e.line);
    }
  }

  /** A function's typedef carries the return type as written and the rest of
      the declaration line after the name, which holds no line break, so the
      typedef ends with its only line break after the name. */
  lemma TypedefCarriesDeclaration(buf: seq<char>, e: ArbInfo, prefix: seq<char>)
    requires LineShape(buf, e) && FunctionShape(buf, e)
    ensures InBuffer(buf, e)
    ensures
      var tail := buf[e.value.End()..e.line.End()];
      Line(TypedefLine, buf, e, prefix) ==
        "typedef " + buf[e.returnType.start..e.returnType.End()] + " (APIENTRYP " +
        PointerType(Text(buf, e.value)) + ") " + tail + "\n" &&
      forall k :: 0 <= k < |tail| ==> !IsNewline(tail[k])
  {
    var tail := buf[e.value.End()..e.line.End()];
    forall k | 0 <= k < |tail|
      ensures !IsNewline(tail[k])
    {
      assert tail[k] == buf[e.value.End() + k];
    }
  }

  /** For a GLAPI record the alias, pointer and init lines all name the
      registered function, whose hash is the one the slot is filed under:
      the alias defines the name as its ProcPrefix pointer, the pointer line
      declares that pointer with the PFN type, and the init line loads it by
      the same name. */
  lemma FunctionLinesName(buf: seq<char>, s: Slot<ArbInfo>, prefix: seq<char>)
    requires WellFormed(buf, s) && FunctionShape(buf, s.data)
    ensures InBuffer(buf, s.data)
    ensures var name := Text(buf, s.data.value);
      Hash(name) == s.hash &&
      Line(AliasLine, buf, s.data, prefix) == "#define " + name + " " + ProcPrefix + name + "\n" &&
      Line(PointerLine, buf, s.data, prefix) == PointerType(name) + " " + ProcPrefix + name + ";\n" &&
      Line(InitLine, buf, s.data, prefix) ==
        "  " + ProcPrefix + name + " = (" + PointerType(name) + ")" + prefix + "OpenGLGetProc(\"" + name + "\");\n"
  {
    assert s.data.functionName == s.data.value;
  }

  // ---------------------------------------------------------------------------
  // One section: a line for each discovered symbol the registry holds.

  /** Registry slot indices that are occupied. */
  ghost predicate Points(arb: seq<Slot<ArbInfo>>, ps: seq<nat>) {
    forall k :: 0 <= k < |ps| ==> ps[k] < |arb| && arb[ps[k]].hash != 0
  }

  /** The registry slots that GetToken finds for the first n discovered
      slots, in table order. */
  function Emitted(arb: seq<Slot<ArbInfo>>, toks: seq<Slot<seq<char>>>, n: nat): (ps: seq<nat>)
    requires |arb| == TableSize && n <= |toks|
    ensures Points(arb, ps)
  {
    if n == 0 then []
    else
      match Find(arb, toks[n - 1].hash)
      case None => Emitted(arb, toks, n - 1)
      case Some(p) => Emitted(arb, toks, n - 1) + [p]
  }

  /** The line each registry slot produces; nothing for an empty slot. */
  function Rendered(f: Format, buf: seq<char>, arb: seq<Slot<ArbInfo>>, prefix: seq<char>): (lines: seq<seq<char>>)
    requires Fits(buf, arb)
    ensures |lines| == |arb|
  {
    seq(|arb|, p requires 0 <= p < |arb| =>
      if arb[p].hash != 0 then Line(f, buf, arb[p].data, prefix) else [])
  }

  /** The lines of the given records, one after another. */
  function Lines(lines: seq<seq<char>>, arb: seq<Slot<ArbInfo>>, ps: seq<nat>): seq<char>
    requires |lines| == |arb| && Points(arb, ps)
  {
    if ps == [] then []
    else Lines(lines, arb, ps[..|ps| - 1]) + lines[ps[|ps| - 1]]
  }

  /** Lines of one more record: the lines so far, then that record's line. */
  lemma LinesSnoc(lines: seq<seq<char>>, arb: seq<Slot<ArbInfo>>, ps: seq<nat>, p: nat)
    requires |lines| == |arb| && Points(arb, ps) && p < |arb| && arb[p].hash != 0
    ensures Points(arb, ps + [p])
    ensures Lines(lines, arb, ps + [p]) == Lines(lines, arb, ps) + lines[p]
  {
    assert (ps + [p])[..|ps|] == ps;
  }

  /** A registry slot is emitted exactly when one of the first n discovered
      slots holds a hash that GetToken finds there. */
  lemma EmittedFound(arb: seq<Slot<ArbInfo>>, toks: seq<Slot<seq<char>>>, n: nat, p: nat)
    requires |arb| == TableSize && n <= |toks|
    ensures p in Emitted(arb, toks, n) <==> exists i :: 0 <= i < n && Find(arb, toks[i].hash) == Some(p)
  {
    if p in Emitted(arb, toks, n) {
      var i := EmittedWitness(arb, toks, n, p);
    } else if exists i :: 0 <= i < n && Find(arb, toks[i].hash) == Some(p) {
      var i :| 0 <= i < n && Find(arb, toks[i].hash) == Some(p);
      EmittedHas(arb, toks, n, i);
    }
  }

  /** A record emitted for the first n discovered slots is found for one of them. */
  lemma {:induction false} EmittedWitness(arb: seq<Slot<ArbInfo>>, toks: seq<Slot<seq<char>>>, n: nat, p: nat)
    returns (i: nat)
    requires |arb| == TableSize && n <= |toks| && p in Emitted(arb, toks, n)
    ensures i < n && Find(arb, toks[i].hash) == Some(p)
  {
    if p in Emitted(arb, toks, n - 1) {
      i := EmittedWitness(arb, toks, n - 1, p);
    } else {
      i := n - 1;
    }
  }

  /** The record found for one of the first n discovered slots is emitted. */
  lemma {:induction false} EmittedHas(arb: seq<Slot<ArbInfo>>, toks: seq<Slot<seq<char>>>, n: nat, i: nat)
    requires |arb| == TableSize && i < n <= |toks| && Find(arb, toks[i].hash).Some?
    ensures Find(arb, toks[i].hash).value in Emitted(arb, toks, n)
  {
    if i < n - 1 {
      EmittedHas(arb, toks, n - 1, i);
    }
  }

  /** Registry records in descending hash order. */
  ghost predicate Descending(arb: seq<Slot<ArbInfo>>, ps: seq<nat>)
    requires Points(arb, ps)
  {
    forall k, l :: 0 <= k < l < |ps| ==> Key(arb[ps[k]].hash) >= Key(arb[ps[l]].hash)
  }

  /** Registry records with pairwise different hashes. */
  ghost predicate Once(arb: seq<Slot<ArbInfo>>, ps: seq<nat>)
    requires Points(arb, ps)
  {
    forall k, l :: 0 <= k < l < |ps| ==> arb[ps[k]].hash != arb[ps[l]].hash
  }

  /** A record whose hash is at most every earlier one's keeps the order. */
  lemma SnocDescending(arb: seq<Slot<ArbInfo>>, ps: seq<nat>, p: nat)
    requires Points(arb, ps) && Descending(arb, ps) && p < |arb| && arb[p].hash != 0
    requires forall k :: 0 <= k < |ps| ==> Key(arb[ps[k]].hash) >= Key(arb[p].hash)
    ensures Points(arb, ps + [p]) && Descending(arb, ps + [p])
  {
    var qs := ps + [p];
    forall k, l | 0 <= k < l < |qs|
      ensures Key(arb[qs[k]].hash) >= Key(arb[qs[l]].hash)
    {
      assert qs[k] == ps[k];
      if l < |ps| {
        assert qs[l] == ps[l];
      }
    }
  }

  /** A record whose hash differs from every earlier one's keeps them distinct. */
  lemma SnocOnce(arb: seq<Slot<ArbInfo>>, ps: seq<nat>, p: nat)
    requires Points(arb, ps) && Once(arb, ps) && p < |arb| && arb[p].hash != 0
    requires forall k :: 0 <= k < |ps| ==> arb[ps[k]].hash != arb[p].hash
    ensures Points(arb, ps + [p]) && Once(arb, ps + [p])
  {
    var qs := ps + [p];
    forall k, l | 0 <= k < l < |qs|
      ensures arb[qs[k]].hash != arb[qs[l]].hash
    {
      assert qs[k] == ps[k];
      if l < |ps| {
        assert qs[l] == ps[l];
      }
    }
  }

  /** Over a sorted table, a record emitted for the first n discovered slots
      has a hash at least that of discovered slot n. */
  lemma EmittedAtLeast(arb: seq<Slot<ArbInfo>>, toks: seq<Slot<seq<char>>>, n: nat, q: nat)
    requires |arb| == TableSize && n < |toks| && SortedDesc(toks) && q in Emitted(arb, toks, n)
    ensures q < |arb| && Key(arb[q].hash) >= Key(toks[n].hash)
  {
    EmittedFound(arb, toks, n, q);
    var i :| 0 <= i < n && Find(arb, toks[i].hash) == Some(q);
  }

  /** Over a sorted table, the emitted records follow descending hash order. */
  lemma EmittedDescending(arb: seq<Slot<ArbInfo>>, toks: seq<Slot<seq<char>>>, n: nat)
    requires |arb| == TableSize && n <= |toks| && SortedDesc(toks)
    ensures Descending(arb, Emitted(arb, toks, n))
  {
    for i := 0 to n
      invariant Descending(arb, Emitted(arb, toks, i))
    {
      NextDescending(arb, toks, i);
    }
  }

  /** The next symbol of a sorted table adds at most one record, and it
      keeps the order descending. */
  lemma NextDescending(arb: seq<Slot<ArbInfo>>, toks: seq<Slot<seq<char>>>, n: nat)
    requires |arb| == TableSize && n < |toks| && SortedDesc(toks) && Descending(arb, Emitted(arb, toks, n))
    ensures Descending(arb, Emitted(arb, toks, n + 1))
  {
    match Find(arb, toks[n].hash)
    case None =>
      assert Emitted(arb, toks, n + 1) == Emitted(arb, toks, n);
    case Some(p) =>
      AppendDescending(arb, toks, n, p);
  }

  /** The record found for the next symbol of a sorted table extends the
      descending order of those emitted before it. */
  lemma AppendDescending(arb: seq<Slot<ArbInfo>>, toks: seq<Slot<seq<char>>>, n: nat, p: nat)
    requires |arb| == TableSize && n < |toks| && SortedDesc(toks) && Find(arb, toks[n].hash) == Some(p)
    requires Descending(arb, Emitted(arb, toks, n))
    ensures Descending(arb, Emitted(arb, toks, n + 1))
  {
    var before := Emitted(arb, toks, n);
    assert Emitted(arb, toks, n + 1) == before + [p];
    forall k | 0 <= k < |before|
      ensures Key(arb[before[k]].hash) >= Key(arb[p].hash)
    {
      EmittedAtLeast(arb, toks, n, before[k]);
    }
    SnocDescending(arb, before, p);
  }

  /** Over a strictly sorted table, no record is emitted twice. */
  lemma {:induction false} EmittedOnce(arb: seq<Slot<ArbInfo>>, toks: seq<Slot<seq<char>>>, n: nat)
    requires |arb| == TableSize && n <= |toks| && Strict(toks)
    ensures Once(arb, Emitted(arb, toks, n))
  {
    if n > 0 {
      EmittedOnce(arb, toks, n - 1);
      var before := Emitted(arb, toks, n - 1);
      match Find(arb, toks[n - 1].hash)
      case None =>
      case Some(p) =>
        forall k | 0 <= k < |before|
          ensures arb[before[k]].hash != arb[p].hash
        {
          EmittedFound(arb, toks, n - 1, before[k]);
          var i :| 0 <= i < n - 1 && Find(arb, toks[i].hash) == Some(before[k]);
        }
        SnocOnce(arb, before, p);
    }
  }

  /** After sorting, a count that covers every occupied slot emits the records
      of all the discovered symbols the registry holds, and no others. */
  lemma EmittedComplete(arb: seq<Slot<ArbInfo>>, toks: seq<Slot<seq<char>>>, n: nat, p: nat)
    requires |arb| == TableSize && SortedDesc(toks) && CountOccupied(toks) <= n <= |toks|
    ensures p in Emitted(arb, toks, n) <==> exists i :: 0 <= i < |toks| && Find(arb, toks[i].hash) == Some(p)
  {
    EmittedFound(arb, toks, n, p);
    OccupiedPrefix(toks);
  }

  /** The text of one emission loop over the first n discovered slots: for
      each, the line of the registry slot GetToken finds, if any. */
  function Section(lines: seq<seq<char>>, arb: seq<Slot<ArbInfo>>, toks: seq<Slot<seq<char>>>, n: nat): seq<char>
    requires |lines| == |arb| == TableSize && n <= |toks|
  {
    if n == 0 then []
    else
      Section(lines, arb, toks, n - 1) +
      match Find(arb, toks[n - 1].hash)
      case None => []
      case Some(p) => lines[p]
  }

  /** A section is the lines of the emitted records, in order. */
  lemma {:induction false} SectionLines(lines: seq<seq<char>>, arb: seq<Slot<ArbInfo>>, toks: seq<Slot<seq<char>>>,
                                        n: nat)
    requires |lines| == |arb| == TableSize && n <= |toks|
    ensures Section(lines, arb, toks, n) == Lines(lines, arb, Emitted(arb, toks, n))
  {
    if n > 0 {
      SectionLines(lines, arb, toks, n - 1);
      match Find(arb, toks[n - 1].hash)
      case None =>
      case Some(p) =>
        LinesSnoc(lines, arb, Emitted(arb, toks, n - 1), p);
    }
  }

  /** One turn of an emission loop: the line for discovered slot `index`,
      or nothing when the registry does not hold its hash. */
  method EmitOne(f: Format, buf: seq<char>, arb: Table<ArbInfo>, tokens: Table<seq<char>>, index: nat,
                 prefix: seq<char>) returns (piece: seq<char>)
    requires arb.Valid() && tokens.Valid() && index < TableSize && Fits(buf, arb.slots[..])
    ensures var lines := Rendered(f, buf, arb.slots[..], prefix);
      Section(lines, arb.slots[..], tokens.slots[..], index + 1) ==
      Section(lines, arb.slots[..], tokens.slots[..], index) + piece
  {
    var r := arb.GetToken(tokens.slots[index].hash);
    piece := [];
    if r.Some? {
      piece := Line(f, buf, arb.slots[r.value].data, prefix);
    }
  }

  /** One emission loop: for each of the first `count` discovered slots, look
      the hash up in the registry and write the record's line if it is there. */
  method EmitSection(f: Format, buf: seq<char>, arb: Table<ArbInfo>, tokens: Table<seq<char>>, count: nat,
                     prefix: seq<char>) returns (out: seq<char>)
    requires arb.Valid() && tokens.Valid() && count <= TableSize && Fits(buf, arb.slots[..])
    ensures out == Section(Rendered(f, buf, arb.slots[..], prefix), arb.slots[..], tokens.slots[..], count)
  {
    ghost var registry, toks := arb.slots[..], tokens.slots[..];
    ghost var lines := Rendered(f, buf, registry, prefix);
    out := [];
    var index: nat := 0;
    while index < count
      invariant index <= count
      invariant out == Section(lines, registry, toks, index)
    {
      var piece := EmitOne(f, buf, arb, tokens, index, prefix);
      out := out + piece;
      index := index + 1;
    }
  }

  // ---------------------------------------------------------------------------
  // The whole header.

  predicate EndsWith(s: seq<char>, z: seq<char>) {
    |z| <= |s| && s[|s| - |z|..] == z
  }

  lemma TakeAppend(a: seq<char>, b: seq<char>, k: nat)
    requires k <= |a|
    ensures (a + b)[..k] == a[..k]
  {
  }

  lemma EndsWithAppend(a: seq<char>, b: seq<char>, z: seq<char>)
    requires EndsWith(b, z)
    ensures EndsWith(a + b, z)
  {
    assert (a + b)[|a + b| - |z|..] == b[|b| - |z|..];
  }

  /** The fixed text of the header, its `%s` and `%llu` already filled in. */
  datatype Blocks = Blocks(preamble: seq<char>, version: seq<char>, base: seq<char>, debugProc: seq<char>,
                           loader: seq<char>, initHead: seq<char>, initTail: seq<char>)

  /** The fixed text for a prefix and a timestamp; `loader` is the platform
      loader block for that prefix. */
  function Fixed(prefix: seq<char>, timestamp: nat, loader: seq<char>): Blocks {
    Blocks(Preamble(timestamp), VersionBlock(prefix), BaseTypes, DebugProc, loader, InitHead(prefix), InitTail(prefix))
  }

  /** What the guard lemmas need of the fixed text: the preamble opens the
      include guard, the init tail closes it, and the GLDEBUGPROC typedef ends
      with a semicolon and a line break. */
  ghost predicate Framed(b: Blocks) {
    |OpenGuard| <= |b.preamble| && b.preamble[..|OpenGuard|] == OpenGuard &&
    EndsWith(b.initTail, CloseGuard) && EndsWith(b.debugProc, ";\n")
  }

  lemma PreambleOpens(timestamp: nat)
    ensures |OpenGuard| <= |Preamble(timestamp)| && Preamble(timestamp)[..|OpenGuard|] == OpenGuard
  {
    TakeAppend(OpenGuard, PreambleNote + Decimal(timestamp) + Spacer, |OpenGuard|);
  }

  lemma InitTailCloses(prefix: seq<char>)
    ensures EndsWith(InitTail(prefix), CloseGuard)
  {
    EndsWithAppend(Fill(InitTailTemplate, prefix), CloseGuard, CloseGuard);
  }

  /** The generator's fixed text opens and closes the guard as Framed says. */
  lemma FixedFramed(prefix: seq<char>, timestamp: nat, loader: seq<char>)
    ensures Framed(Fixed(prefix, timestamp, loader))
  {
    PreambleOpens(timestamp);
    InitTailCloses(prefix);
    var head := "typedef void (APIENTRY *GLDEBUGPROC)(GLenum source,GLenum type,GLuint id,GLenum severity,GLsizei length,const GLchar *message,const void *userParam)";
    EndsWithAppend(head, ";\n", ";\n");
  }

  /** The text before the constants: preamble, version block, base types. */
  function Opening(b: Blocks, boilerplate: bool): seq<char> {
    b.preamble + ((if boilerplate then b.version else []) + b.base)
  }

  /** The boilerplate text after the typedefs, from the given sections. */
  function Closing(b: Blocks, alias: seq<char>, pointers: seq<char>, init: seq<char>): seq<char> {
    Spacer + (alias + (Spacer + (pointers + (b.loader + (b.initHead + (init + b.initTail))))))
  }

  /** The header text for the given fixed text and settings, registry and
      sorted discovered tables with their counts. */
  function Header(b: Blocks, prefix: seq<char>, boilerplate: bool, buf: seq<char>,
                  arb: seq<Slot<ArbInfo>>, functions: seq<Slot<seq<char>>>, functionCount: nat,
                  defines: seq<Slot<seq<char>>>, definesCount: nat): seq<char>
    requires |arb| == TableSize && Fits(buf, arb)
    requires functionCount <= |functions| && definesCount <= |defines|
  {
    var closing :=
      if boilerplate then
        Closing(b, Section(Rendered(AliasLine, buf, arb, prefix), arb, functions, functionCount),
                Section(Rendered(PointerLine, buf, arb, prefix), arb, functions, functionCount),
                Section(Rendered(InitLine, buf, arb, prefix), arb, functions, functionCount))
      else [];
    Opening(b, boilerplate) +
    (Section(Rendered(MacroLine, buf, arb, prefix), arb, defines, definesCount) +
     (Spacer + (b.debugProc + (Section(Rendered(TypedefLine, buf, arb, prefix), arb, functions, functionCount) + closing))))
  }

  /** The header always starts by opening its include guard. */
  lemma HeaderOpensGuard(b: Blocks, prefix: seq<char>, boilerplate: bool, buf: seq<char>,
                         arb: seq<Slot<ArbInfo>>, functions: seq<Slot<seq<char>>>, functionCount: nat,
                         defines: seq<Slot<seq<char>>>, definesCount: nat)
    requires Framed(b) && |arb| == TableSize && Fits(buf, arb)
    requires functionCount <= |functions| && definesCount <= |defines|
    ensures var out := Header(b, prefix, boilerplate, buf, arb, functions, functionCount, defines, definesCount);
      |OpenGuard| <= |out| && out[..|OpenGuard|] == OpenGuard
  {
    var out := Header(b, prefix, boilerplate, buf, arb, functions, functionCount, defines, definesCount);
    var opening := Opening(b, boilerplate);
    var rest := out[|opening|..];
    assert out == opening + rest;
    TakeAppend(b.preamble, (if boilerplate then b.version else []) + b.base, |OpenGuard|);
    TakeAppend(opening, rest, |OpenGuard|);
  }

  /** The boilerplate text ends by closing the include guard. */
  lemma ClosingClosesGuard(b: Blocks, alias: seq<char>, pointers: seq<char>, init: seq<char>)
    requires Framed(b)
    ensures EndsWith(Closing(b, alias, pointers, init), CloseGuard)
  {
    EndsWithAppend(init, b.initTail, CloseGuard);
    EndsWithAppend(b.initHead, init + b.initTail, CloseGuard);
    EndsWithAppend(b.loader, b.initHead + (init + b.initTail), CloseGuard);
    var c := pointers + (b.loader + (b.initHead + (init + b.initTail)));
    EndsWithAppend(pointers, b.loader + (b.initHead + (init + b.initTail)), CloseGuard);
    EndsWithAppend(Spacer, c, CloseGuard);
    EndsWithAppend(alias, Spacer + c, CloseGuard);
    EndsWithAppend(Spacer, alias + (Spacer + c), CloseGuard);
  }

  /** With boilerplate, the header ends by closing its include guard. */
  lemma HeaderClosesGuard(b: Blocks, prefix: seq<char>, buf: seq<char>,
                          arb: seq<Slot<ArbInfo>>, functions: seq<Slot<seq<char>>>, functionCount: nat,
                          defines: seq<Slot<seq<char>>>, definesCount: nat)
    requires Framed(b) && |arb| == TableSize && Fits(buf, arb)
    requires functionCount <= |functions| && definesCount <= |defines|
    ensures EndsWith(Header(b, prefix, true, buf, arb, functions, functionCount, defines, definesCount), CloseGuard)
  {
    var opening := Opening(b, true);
    var macros := Section(Rendered(MacroLine, buf, arb, prefix), arb, defines, definesCount);
    var typedefs := Section(Rendered(TypedefLine, buf, arb, prefix), arb, functions, functionCount);
    var alias := Section(Rendered(AliasLine, buf, arb, prefix), arb, functions, functionCount);
    var pointers := Section(Rendered(PointerLine, buf, arb, prefix), arb, functions, functionCount);
    var init := Section(Rendered(InitLine, buf, arb, prefix), arb, functions, functionCount);
    var closing := Closing(b, alias, pointers, init);
    ClosingClosesGuard(b, alias, pointers, init);
    EndsWithAppend(typedefs, closing, CloseGuard);
    EndsWithAppend(b.debugProc, typedefs + closing, CloseGuard);
    EndsWithAppend(Spacer, b.debugProc + (typedefs + closing), CloseGuard);
    EndsWithAppend(macros, Spacer + (b.debugProc + (typedefs + closing)), CloseGuard);
    EndsWithAppend(opening, macros + (Spacer + (b.debugProc + (typedefs + closing))), CloseGuard);
  }

  /** Without boilerplate and with no function emitted, the header ends with
      the GLDEBUGPROC typedef: the include guard is never closed. */
  lemma HeaderLeavesGuardOpen(b: Blocks, prefix: seq<char>, buf: seq<char>,
                              arb: seq<Slot<ArbInfo>>, functions: seq<Slot<seq<char>>>, functionCount: nat,
                              defines: seq<Slot<seq<char>>>, definesCount: nat)
    requires Framed(b) && |arb| == TableSize && Fits(buf, arb)
    requires functionCount <= |functions| && definesCount <= |defines|
    requires Emitted(arb, functions, functionCount) == []
    ensures var out := Header(b, prefix, false, buf, arb, functions, functionCount, defines, definesCount);
      EndsWith(out, b.debugProc) && !EndsWith(out, CloseGuard)
  {
    var out := Header(b, prefix, false, buf, arb, functions, functionCount, defines, definesCount);
    var opening := Opening(b, false);
    var macros := Section(Rendered(MacroLine, buf, arb, prefix), arb, defines, definesCount);
    SectionLines(Rendered(TypedefLine, buf, arb, prefix), arb, functions, functionCount);
    assert out == opening + (macros + (Spacer + b.debugProc));
    EndsWithAppend(Spacer, b.debugProc, b.debugProc);
    EndsWithAppend(macros, Spacer + b.debugProc, b.debugProc);
    EndsWithAppend(opening, macros + (Spacer + b.debugProc), b.debugProc);
    assert out[|out| - 2] == b.debugProc[|b.debugProc| - 2] == ';';
    assert CloseGuard[|CloseGuard| - 2] == 'H';
  }

  /** The emission part of GenerateOpenGLHeader: the text written to the
      output file, given the fixed text, the sorted tables and their counts. */
  method WriteHeader(b: Blocks, prefix: seq<char>, boilerplate: bool, buf: seq<char>,
                     arb: Table<ArbInfo>, functions: Table<seq<char>>, functionCount: nat,
                     defines: Table<seq<char>>, definesCount: nat) returns (out: seq<char>)
    requires arb.Valid() && functions.Valid() && defines.Valid() && Fits(buf, arb.slots[..])
    requires functionCount <= TableSize && definesCount <= TableSize
    ensures out == Header(b, prefix, boilerplate, buf, arb.slots[..], functions.slots[..],
                          functionCount, defines.slots[..], definesCount)
  {
    var opening := Opening(b, boilerplate);
    var macros := EmitSection(MacroLine, buf, arb, defines, definesCount, prefix);
    var typedefs := EmitSection(TypedefLine, buf, arb, functions, functionCount, prefix);
    var closing := [];
    if boilerplate {
      var alias := EmitSection(AliasLine, buf, arb, functions, functionCount, prefix);
      var pointers := EmitSection(PointerLine, buf, arb, functions, functionCount, prefix);
      var init := EmitSection(InitLine, buf, arb, functions, functionCount, prefix);
      closing := Closing(b, alias, pointers, init);
    }
    out := opening + (macros + (Spacer + (b.debugProc + (typedefs + closing))));
  }
}

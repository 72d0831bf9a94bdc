/**
 * Indexing the registry headers: the first loop of GenerateOpenGLHeader walks
 * the spliced registry text with ParseArbToken and records every `GLAPI`
 * declaration and every `#define` in the registry table, keyed by the hash of
 * the declared name. A record holds spans into the registry text: the name,
 * the whole line, and for functions the return type, the name again and the
 * parameter list.
 */
module Registry {
  import opened Strings
  import opened Lexer
  import opened Tables

  /** GLArbToken: the name token and the spans the indexing loop fills in. */
  datatype ArbInfo = ArbInfo(value: Span, line: Span, returnType: Span, functionName: Span, parameters: Span)

  /** A zero-initialised record. */
  const Blank: ArbInfo := ArbInfo(NoSpan, NoSpan, NoSpan, NoSpan, NoSpan)

  /** The registry table's slots and ArbTokenCount. */
  datatype Registry = Registry(slots: seq<Slot<ArbInfo>>, count: nat)

  /** What one iteration of the indexing loop leads to: the next cursor and
      registry, or a crash (the null result of a full table is dereferenced). */
  datatype Step = Crash | Step(at: nat, reg: Registry)

  /** What the whole indexing loop leads to. */
  datatype Scan = Crashed | Scanned(reg: Registry)

  /** The calloc'ed registry table and a count of 0. */
  function InitRegistry(): (r: Registry)
    ensures |r.slots| == TableSize && Empty(r.slots) && r.count == 0
  {
    Registry(seq(TableSize, _ => Slot(0, Blank)), 0)
  }

  /** Adding a record for a name not yet in the table: ArbTokenCount goes up
      and the record goes into the first empty slot; a full table crashes. */
  function Record(reg: Registry, h: bv32, e: ArbInfo): (r: Step)
    requires |reg.slots| == TableSize
  {
    if FirstEmpty(reg.slots, h).None? then Crash
    else Step(0, Registry(Insert(reg.slots, Slot(h, e)), reg.count + 1))
  }

  /** Where the return type of a `GLAPI` line starting at `at` ends: after
      one token, or after two when the first is one Equal accepts for
      `const`. */
  function TypeEnd(buf: seq<char>, at: nat): (r: nat)
    requires Terminated(buf) && at < |buf|
    ensures at <= r < |buf| && forall x :: at <= x < r ==> buf[x] != Nul
  {
    var t := NextArbToken(buf, at);
    if Equal(Text(buf, t), "const") then
      NulFreeJoin(buf, at, t.End(), NextArbToken(buf, t.End()).End());
      NextArbToken(buf, t.End()).End()
    else t.End()
  }

  /** The name of a `GLAPI` line whose GLAPI token is g: the token after the
      return type and the calling-convention token. */
  function FunctionNameAfter(buf: seq<char>, g: Span): (name: Span)
    requires Terminated(buf) && g.End() < |buf|
    requires forall x :: g.start <= x < g.End() ==> buf[x] != Nul
    ensures g.End() <= name.start && name.End() < |buf|
    ensures forall x :: g.start <= x < name.End() ==> buf[x] != Nul
  {
    var typeEnd := TypeEnd(buf, g.End());
    var callEnd := NextArbToken(buf, typeEnd).End();
    NulFreeJoin(buf, g.start, g.End(), typeEnd);
    NulFreeJoin(buf, g.start, typeEnd, callEnd);
    NulFreeJoin(buf, g.start, callEnd, NextArbToken(buf, callEnd).End());
    NextArbToken(buf, callEnd)
  }

  /** The name of a `#define` line whose first token is d: the next token. */
  function MacroNameAfter(buf: seq<char>, d: Span): (name: Span)
    requires Terminated(buf) && d.End() < |buf|
    requires forall x :: d.start <= x < d.End() ==> buf[x] != Nul
    ensures d.End() <= name.start && name.End() < |buf|
    ensures forall x :: d.start <= x < name.End() ==> buf[x] != Nul
  {
    NulFreeJoin(buf, d.start, d.End(), NextArbToken(buf, d.End()).End());
    NextArbToken(buf, d.End())
  }

  /** The record of a line that starts at `start` and declares `name`: the
      line runs to its end; a function record also has its return type, its
      name and the parameters after the name, a macro record has none of
      these. */
  function Complete(buf: seq<char>, start: nat, name: Span, returnType: Span, isFunction: bool): (e: ArbInfo)
    requires Terminated(buf) && start < name.start && name.End() < |buf|
    requires forall k :: start <= k < name.End() ==> buf[k] != Nul
    ensures LineShape(buf, e) && e.line.start == start && e.value == name
    ensures isFunction ==>
              e.returnType == returnType && e.functionName == name &&
              e.parameters == Span(name.End(), e.line.End() - name.End())
    ensures !isFunction ==> e.returnType == NoSpan && e.functionName == NoSpan && e.parameters == NoSpan
  {
    var lineEnd := LineEnd(buf, name.End());
    LineNoNul(buf, start, lineEnd);
    if isFunction then
      ArbInfo(name, Span(start, lineEnd - start), returnType, name, Span(name.End(), lineEnd - name.End()))
    else
      ArbInfo(name, Span(start, lineEnd - start), NoSpan, NoSpan, NoSpan)
  }

  /** The record of a `GLAPI` line whose GLAPI token is g. */
  function FunctionEntry(buf: seq<char>, g: Span): (e: ArbInfo)
    requires Terminated(buf) && g.start < |buf| && g == NextArbToken(buf, g.start) && g.len > 0
    ensures LineShape(buf, e)
    ensures Equal(Text(buf, g), "GLAPI") ==> FunctionShape(buf, e)
  {
    var returnType := Span(g.End(), TypeEnd(buf, g.End()) - g.End());
    Complete(buf, g.start, FunctionNameAfter(buf, g), returnType, true)
  }

  /** The record of a `#define` line whose first token is d. */
  function MacroEntry(buf: seq<char>, d: Span): (e: ArbInfo)
    requires Terminated(buf) && d.start < |buf| && d == NextArbToken(buf, d.start) && d.len > 0
    ensures LineShape(buf, e) && e.line.start == d.start
    ensures e.returnType == NoSpan && e.functionName == NoSpan && e.parameters == NoSpan
  {
    Complete(buf, d.start, MacroNameAfter(buf, d), NoSpan, false)
  }

  /** Two adjacent NUL-free stretches make one. */
  lemma NulFreeJoin(buf: seq<char>, i: nat, j: nat, k: nat)
    requires i <= j <= k <= |buf|
    requires forall x :: i <= x < j ==> buf[x] != Nul
    requires forall x :: j <= x < k ==> buf[x] != Nul
    ensures forall x :: i <= x < k ==> buf[x] != Nul
  {
  }

  /** The bookkeeping common to both kinds of line: a name whose hash the
      table already holds is skipped (the cursor stays after the name);
      otherwise the record is added and the cursor moves to the end of the
      line. */
  function Declare(buf: seq<char>, reg: Registry, e: ArbInfo): (r: Step)
    requires LineShape(buf, e) && |reg.slots| == TableSize
    ensures r.Step? ==> e.value.End() <= r.at < |buf| && |r.reg.slots| == TableSize
  {
    var h := Hash(Text(buf, e.value));
    if Find(reg.slots, h).Some? then Step(e.value.End(), reg)
    else match Record(reg, h, e)
      case Crash => Crash
      case Step(_, r) => Step(e.line.End(), r)
  }

  /** One iteration of the indexing loop from cursor `at`. */
  function ScanStep(buf: seq<char>, at: nat, reg: Registry): (r: Step)
    requires Terminated(buf) && at < |buf| && buf[at] != Nul && |reg.slots| == TableSize
    ensures r.Step? ==> at < r.at < |buf| && |r.reg.slots| == TableSize
  {
    var t := NextArbToken(buf, at);
    TokenAt(buf, at);
    if Equal(Text(buf, t), "GLAPI") then Declare(buf, reg, FunctionEntry(buf, t))
    else if StartsWith(Text(buf, t), "#define") then Declare(buf, reg, MacroEntry(buf, t))
    else Step(t.End(), reg)
  }

  /** The indexing loop from cursor `at` until the NUL. */
  function ScanFrom(buf: seq<char>, at: nat, reg: Registry): Scan
    requires Terminated(buf) && at < |buf| && |reg.slots| == TableSize
    decreases |buf| - at
  {
    if buf[at] == Nul then Scanned(reg)
    else match ScanStep(buf, at, reg)
      case Crash => Crashed
      case Step(next, r) => ScanFrom(buf, next, r)
  }

  /** The registry built from the whole registry text. */
  function IndexRegistry(buf: seq<char>): Scan
    requires Terminated(buf)
  {
    ScanFrom(buf, 0, InitRegistry())
  }

  // ---------------------------------------------------------------------------
  // What a record says about the registry text.

  /** A record's line starts at its first token, holds no NUL and stops right
      before a newline or the NUL; after the name the line has no line break. */
  ghost predicate LineShape(buf: seq<char>, e: ArbInfo) {
    e.line.start < e.value.start && e.value.End() <= e.line.End() < |buf| &&
    (buf[e.line.End()] == Nul || IsNewline(buf[e.line.End()])) &&
    NoNul(Text(buf, e.line)) &&
    forall k :: e.value.End() <= k < e.line.End() ==> !IsNewline(buf[k])
  }

  /** A `GLAPI` record: the line opens with a GLAPI token that ends where the
      return type starts; the return type ends before the name; the name is
      also the function name; the parameters run from the name to the end of
      the line. */
  ghost predicate FunctionShape(buf: seq<char>, e: ArbInfo) {
    e.line.start <= e.returnType.start && e.returnType.End() <= e.functionName.start &&
    e.functionName == e.value && e.value.End() <= e.line.End() < |buf| &&
    e.parameters == Span(e.value.End(), e.line.End() - e.value.End()) &&
    Equal(buf[e.line.start..e.returnType.start], "GLAPI")
  }

  /** A `#define` record: the line opens with a token that StartsWith accepts
      for "#define", and no function span is set. */
  ghost predicate MacroShape(buf: seq<char>, e: ArbInfo) {
    e.returnType == NoSpan && e.functionName == NoSpan && e.parameters == NoSpan &&
    Terminated(buf) && e.line.start < |buf| &&
    StartsWith(Text(buf, NextArbToken(buf, e.line.start)), "#define")
  }

  /** An occupied registry slot: its hash is the hash of the name it holds,
      and the record has the shape of one of the two kinds of line. */
  ghost predicate WellFormed(buf: seq<char>, s: Slot<ArbInfo>) {
    LineShape(buf, s.data) && s.hash == Hash(Text(buf, s.data.value)) &&
    (FunctionShape(buf, s.data) || MacroShape(buf, s.data))
  }

  /** The invariant of the indexing loop. */
  ghost predicate Inv(buf: seq<char>, reg: Registry) {
    Sound(reg.slots) &&
    CountOccupied(reg.slots) <= reg.count &&
    forall p :: 0 <= p < |reg.slots| && reg.slots[p].hash != 0 ==> WellFormed(buf, reg.slots[p])
  }


  // ---------------------------------------------------------------------------
  // Properties of one step and of the whole scan.

  /** Recording a name that the table does not hold keeps the invariant and
      every record already present, and adds one to the count. */
  lemma RecordInv(buf: seq<char>, reg: Registry, h: bv32, e: ArbInfo)
    requires Inv(buf, reg) && Find(reg.slots, h).None?
    requires h != 0 ==> WellFormed(buf, Slot(h, e))
    requires Record(reg, h, e).Step?
    ensures Inv(buf, Record(reg, h, e).reg) && Keeps(reg.slots, Record(reg, h, e).reg.slots)
    ensures Record(reg, h, e).reg.count == reg.count + 1
  {
    var s := reg.slots;
    var p := FirstEmpty(s, h).value;
    var r := Insert(s, Slot(h, e));
    InsertWritesFirstEmpty(s, Slot(h, e), p);
    assert Record(reg, h, e).reg == Registry(r, reg.count + 1);
    forall q | 0 <= q < |r| && r[q].hash != 0
      ensures WellFormed(buf, r[q])
    {
      if q != p {
        assert r[q] == s[q];
      }
    }
    if h != 0 {
      FindComplete(s, h);
    }
    InsertSound(s, Slot(h, e));
    InsertCountBound(s, Slot(h, e));
  }

  /** The line from `from` to `to` holds no NUL. */
  lemma LineNoNul(buf: seq<char>, from: nat, to: nat)
    requires from <= to <= |buf| && forall k :: from <= k < to ==> buf[k] != Nul
    ensures NoNul(Text(buf, Span(from, to - from)))
  {
  }

  /** Tokenizing again from where a token starts yields the same token. */
  lemma TokenAt(buf: seq<char>, at: nat)
    requires Terminated(buf) && at < |buf|
    ensures NextArbToken(buf, NextArbToken(buf, at).start) == NextArbToken(buf, at)
  {
    var s := NextArbToken(buf, at).start;
    assert SkipEnd(buf, s) == s;
  }

  /** Declaring a well-formed record keeps the invariant and every record
      already made. */
  lemma DeclareInv(buf: seq<char>, reg: Registry, e: ArbInfo)
    requires Inv(buf, reg) && LineShape(buf, e) && (FunctionShape(buf, e) || MacroShape(buf, e))
    requires Declare(buf, reg, e).Step?
    ensures Inv(buf, Declare(buf, reg, e).reg) && Keeps(reg.slots, Declare(buf, reg, e).reg.slots)
  {
    var h := Hash(Text(buf, e.value));
    if Find(reg.slots, h).None? {
      RecordInv(buf, reg, h, e);
    }
  }

  /** One iteration keeps the loop invariant and every record already made. */
  lemma ScanStepInv(buf: seq<char>, at: nat, reg: Registry)
    requires Terminated(buf) && at < |buf| && buf[at] != Nul && Inv(buf, reg)
    requires ScanStep(buf, at, reg).Step?
    ensures Inv(buf, ScanStep(buf, at, reg).reg) && Keeps(reg.slots, ScanStep(buf, at, reg).reg.slots)
  {
    var t := NextArbToken(buf, at);
    TokenAt(buf, at);
    if Equal(Text(buf, t), "GLAPI") {
      DeclareInv(buf, reg, FunctionEntry(buf, t));
    } else if StartsWith(Text(buf, t), "#define") {
      var e := MacroEntry(buf, t);
      assert MacroShape(buf, e);
      DeclareInv(buf, reg, e);
    }
  }

  /** The whole scan keeps the invariant and every record already made: the
      first declaration of a name is the one the registry keeps. */
  lemma {:induction false} ScanFromInv(buf: seq<char>, at: nat, reg: Registry)
    requires Terminated(buf) && at < |buf| && Inv(buf, reg)
    requires ScanFrom(buf, at, reg).Scanned?
    ensures Inv(buf, ScanFrom(buf, at, reg).reg) && Keeps(reg.slots, ScanFrom(buf, at, reg).reg.slots)
    decreases |buf| - at
  {
    if buf[at] != Nul {
      var r := ScanStep(buf, at, reg);
      ScanStepInv(buf, at, reg);
      ScanFromInv(buf, r.at, r.reg);
    }
  }

  /** The registry the generator builds is sound (lookups reach every record,
      no name twice), every record is well formed, and ArbTokenCount is at
      least the number of records. */
  lemma IndexRegistrySound(buf: seq<char>)
    requires Terminated(buf) && IndexRegistry(buf).Scanned?
    ensures Inv(buf, IndexRegistry(buf).reg)
  {
    EmptySound(InitRegistry().slots);
    ScanFromInv(buf, 0, InitRegistry());
  }

  // ---------------------------------------------------------------------------
  // The indexing loop as the generator runs it.

  /** What the generator does with a declaration: skip a name the table
      already holds, otherwise add its record, crashing on a full table. */
  ghost predicate Declared(e: ArbInfo, buf: seq<char>, before: Registry, at: nat, slots: seq<Slot<ArbInfo>>,
                           count: nat, crashed: bool)
    requires LineShape(buf, e) && |before.slots| == TableSize
  {
    Declare(buf, before, e) == if crashed then Crash else Step(at, Registry(slots, count))
  }

  ghost predicate Entered(buf: seq<char>, before: seq<Slot<ArbInfo>>, count: nat, e: ArbInfo, at: nat,
                          slots: seq<Slot<ArbInfo>>, newCount: nat, crashed: bool)
    requires e.value.End() <= |buf| && |before| == TableSize
  {
    var h := Hash(Text(buf, e.value));
    match Find(before, h)
    case Some(_) => !crashed && at == e.value.End() && slots == before && newCount == count
    case None =>
      match FirstEmpty(before, h)
      case None => crashed
      case Some(p) => !crashed && at == e.line.End() && newCount == count + 1 &&
                      slots == Insert(before, Slot(h, Blank.(value := e.value)))[p := Slot(h, e)]
  }

  /** Enter's outcome is the one Declare describes. */
  lemma EnteredDeclared(buf: seq<char>, before: seq<Slot<ArbInfo>>, count: nat, e: ArbInfo, at: nat,
                        slots: seq<Slot<ArbInfo>>, newCount: nat, crashed: bool)
    requires LineShape(buf, e) && |before| == TableSize
    requires Entered(buf, before, count, e, at, slots, newCount, crashed)
    ensures Declared(e, buf, Registry(before, count), at, slots, newCount, crashed)
  {
    var reg := Registry(before, count);
    var h := Hash(Text(buf, e.value));
    if Find(before, h).None? {
      match FirstEmpty(before, h)
      case None =>
        assert Record(reg, h, e) == Crash;
      case Some(p) =>
        RefillSlot(before, h, Blank.(value := e.value), e);
        assert Record(reg, h, e) == Step(0, Registry(slots, count + 1));
    }
  }

  /** Inserting a placeholder and then overwriting its slot with the full
      record inserts the full record. */
  lemma RefillSlot(s: seq<Slot<ArbInfo>>, h: bv32, placeholder: ArbInfo, e: ArbInfo)
    requires |s| == TableSize && FirstEmpty(s, h).Some?
    ensures Insert(s, Slot(h, placeholder))[FirstEmpty(s, h).value := Slot(h, e)] == Insert(s, Slot(h, e))
  {
    var p := FirstEmpty(s, h).value;
    assert Insert(s, Slot(h, placeholder)) == s[p := Slot(h, placeholder)];
    assert s[p := Slot(h, placeholder)][p := Slot(h, e)] == s[p := Slot(h, e)];
  }

  /** Reads to the end of the line and fills in the record's spans. */
  method FinishLine(tk: Tokenizer, start: nat, name: Span, returnType: Span, isFunction: bool)
    returns (e: ArbInfo)
    requires tk.Valid() && tk.at == name.End() && start < name.start
    requires forall k :: start <= k < name.End() ==> tk.buf[k] != Nul
    modifies tk
    ensures tk.Valid()
    ensures e == Complete(tk.buf, start, name, returnType, isFunction) && tk.at == e.line.End()
  {
    if isFunction {
      var functionName := Span(name.start, tk.at - name.start);
      var parameters := tk.at;
      tk.AdvanceToEndOfLine();
      e := ArbInfo(name, Span(start, tk.at - start), returnType, functionName, Span(parameters, tk.at - parameters));
    } else {
      tk.AdvanceToEndOfLine();
      e := Blank.(value := name, line := Span(start, tk.at - start));
    }
  }

  /** The table work both kinds of line share: look the name up; when it is
      absent add it (crashing on a full table), read to the end of the line
      and fill in the record's spans. */
  method Enter(tk: Tokenizer, table: Table<ArbInfo>, count: nat, start: nat, name: Span,
               returnType: Span, isFunction: bool)
    returns (newCount: nat, crashed: bool)
    requires tk.Valid() && table.Valid() && tk.at == name.End() && start < name.start
    requires forall k :: start <= k < name.End() ==> tk.buf[k] != Nul
    modifies tk, table.slots
    ensures tk.Valid()
    ensures Entered(tk.buf, old(table.slots[..]), count, Complete(tk.buf, start, name, returnType, isFunction),
                    tk.at, table.slots[..], newCount, crashed)
  {
    newCount, crashed := count, false;
    var h := GetStringHash(tk.buf, name);
    var found := table.GetToken(h);
    if found.Some? {
      return;
    }
    newCount := count + 1;
    var r := table.AddToken(Slot(h, Blank.(value := name)));
    if r.None? {
      crashed := true;
      return;
    }
    StoreRecord(tk, table, r.value, h, start, name, returnType, isFunction);
  }

  /** The end of Enter once a slot is claimed: read to the end of the line
      and store the completed record in slot p. */
  method StoreRecord(tk: Tokenizer, table: Table<ArbInfo>, p: nat, h: bv32, start: nat, name: Span,
                     returnType: Span, isFunction: bool)
    requires tk.Valid() && table.Valid() && p < TableSize && tk.at == name.End() && start < name.start
    requires forall k :: start <= k < name.End() ==> tk.buf[k] != Nul
    modifies tk, table.slots
    ensures tk.Valid()
    ensures var e := Complete(tk.buf, start, name, returnType, isFunction);
            tk.at == e.line.End() && table.slots[..] == old(table.slots[..])[p := Slot(h, e)]
  {
    var e := FinishLine(tk, start, name, returnType, isFunction);
    table.slots[p] := Slot(h, e);
  }

  /** The tokens of a `GLAPI` line between its GLAPI token `tok` and the end
      of its name: the return type (two tokens after a `const`), the
      calling convention and the name. */
  method ParseFunctionHead(tk: Tokenizer, tok: Span) returns (returnType: Span, name: Span)
    requires tk.Valid() && tok.start < |tk.buf| && tok == NextArbToken(tk.buf, tok.start) && tk.at == tok.End()
    modifies tk
    ensures tk.Valid() && tk.at == name.End()
    ensures returnType == Span(tok.End(), TypeEnd(tk.buf, tok.End()) - tok.End())
    ensures name == FunctionNameAfter(tk.buf, tok)
  {
    returnType := ParseReturnType(tk);
    var t := tk.ParseArbToken();
    name := tk.ParseArbToken();
  }

  /** The return type of a `GLAPI` line: one token, or two after a `const`. */
  method ParseReturnType(tk: Tokenizer) returns (returnType: Span)
    requires tk.Valid()
    modifies tk
    ensures tk.Valid() && old(tk.at) < |tk.buf| && tk.at == TypeEnd(tk.buf, old(tk.at))
    ensures returnType == Span(old(tk.at), tk.at - old(tk.at))
  {
    var start := tk.at;
    var t := tk.ParseArbToken();
    if Equal(Text(tk.buf, t), "const") {
      t := tk.ParseArbToken();
    }
    returnType := Span(start, tk.at - start);
  }

  /** The name of a `GLAPI` line starts after its GLAPI token, with no NUL
      from that token to the end of the name, and its record is the one
      completed from that name and return type. */
  lemma FunctionNameAfterLine(buf: seq<char>, g: Span, returnType: Span)
    requires Terminated(buf) && g.start < |buf| && g == NextArbToken(buf, g.start) && g.len > 0
    requires returnType == Span(g.End(), TypeEnd(buf, g.End()) - g.End())
    ensures var name := FunctionNameAfter(buf, g);
            g.start < name.start && (forall k :: g.start <= k < name.End() ==> buf[k] != Nul) &&
            FunctionEntry(buf, g) == Complete(buf, g.start, name, returnType, true)
  {
  }

  /** The rest of a `GLAPI` line after its GLAPI token `tok`. */
  method IndexFunction(tk: Tokenizer, table: Table<ArbInfo>, count: nat, tok: Span)
    returns (newCount: nat, crashed: bool)
    requires tk.Valid() && table.Valid() && tok.len > 0
    requires tok.start < |tk.buf| && tok == NextArbToken(tk.buf, tok.start) && tk.at == tok.End()
    modifies tk, table.slots
    ensures tk.Valid()
    ensures Declared(FunctionEntry(tk.buf, tok), tk.buf, Registry(old(table.slots[..]), count),
                     tk.at, table.slots[..], newCount, crashed)
  {
    var returnType, name := ParseFunctionHead(tk, tok);
    FunctionNameAfterLine(tk.buf, tok, returnType);
    ghost var before := table.slots[..];
    newCount, crashed := Enter(tk, table, count, tok.start, name, returnType, true);
    EnteredDeclared(tk.buf, before, count, FunctionEntry(tk.buf, tok), tk.at, table.slots[..], newCount, crashed);
  }

  /** The rest of a `#define` line after its first token `tok`. */
  method IndexMacro(tk: Tokenizer, table: Table<ArbInfo>, count: nat, tok: Span)
    returns (newCount: nat, crashed: bool)
    requires tk.Valid() && table.Valid() && tok.len > 0
    requires tok.start < |tk.buf| && tok == NextArbToken(tk.buf, tok.start) && tk.at == tok.End()
    modifies tk, table.slots
    ensures tk.Valid()
    ensures Declared(MacroEntry(tk.buf, tok), tk.buf, Registry(old(table.slots[..]), count),
                     tk.at, table.slots[..], newCount, crashed)
  {
    var name := tk.ParseArbToken();
    ghost var before := table.slots[..];
    newCount, crashed := Enter(tk, table, count, tok.start, name, NoSpan, false);
    EnteredDeclared(tk.buf, before, count, MacroEntry(tk.buf, tok), tk.at, table.slots[..], newCount, crashed);
  }

  /** One iteration of the indexing loop on the tokenizer and the registry
      table: it does what ScanStep says. */
  method IndexLine(tk: Tokenizer, table: Table<ArbInfo>, count: nat) returns (newCount: nat, crashed: bool)
    requires tk.Valid() && table.Valid() && tk.buf[tk.at] != Nul
    modifies tk, table.slots
    ensures tk.Valid()
    ensures ScanStep(tk.buf, old(tk.at), Registry(old(table.slots[..]), count)) ==
      if crashed then Crash else Step(tk.at, Registry(table.slots[..], newCount))
  {
    TokenAt(tk.buf, tk.at);
    newCount, crashed := count, false;
    var tok := tk.ParseArbToken();
    if Equal(Text(tk.buf, tok), "GLAPI") {
      newCount, crashed := IndexFunction(tk, table, count, tok);
    } else if StartsWith(Text(tk.buf, tok), "#define") {
      newCount, crashed := IndexMacro(tk, table, count, tok);
    }
  }

  /** The indexing loop of GenerateOpenGLHeader over the spliced registry
      text: the registry table and ArbTokenCount it leaves are those of
      IndexRegistry, and it crashes exactly when IndexRegistry does. */
  method BuildRegistry(data: seq<char>) returns (table: Table<ArbInfo>, count: nat, crashed: bool)
    requires Terminated(data)
    ensures fresh(table) && fresh(table.slots) && table.Valid()
    ensures IndexRegistry(data) == if crashed then Crashed else Scanned(Registry(table.slots[..], count))
  {
    table := new Table(Blank);
    var tk := new Tokenizer(data);
    count, crashed := 0, false;
    assert table.slots[..] == InitRegistry().slots;
    while tk.buf[tk.at] != Nul
      invariant fresh(tk) && fresh(table.slots) && tk.Valid() && tk.buf == data && table.Valid()
      invariant ScanFrom(data, tk.at, Registry(table.slots[..], count)) == IndexRegistry(data)
      decreases |data| - tk.at
    {
      count, crashed := IndexLine(tk, table, count);
      if crashed {
        return;
      }
    }
  }
}

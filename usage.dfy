/**
 * Usage collection. The generator scans every source file of the program it
 * serves for tokens that look like OpenGL functions (`gl` and an upper-case
 * letter) or constants (`GL_`) and files those that the registry knows, or
 * that the ignore list names, in two discovered-symbol tables, counting each
 * addition. A candidate that resolves nowhere is reported, once per
 * occurrence. Before any file is scanned the constants table is seeded with
 * GL_MAJOR_VERSION and GL_MINOR_VERSION and the functions table with
 * glGetIntegerv, which the generated loader itself calls.
 */
module Usage {
  import opened Strings
  import opened Lexer
  import opened Tables
  import opened Registry

  /** A discovered-symbol table as a value, with the counter kept beside it.
      A slot holds the text of the token that was added. */
  datatype Found = Found(slots: seq<Slot<seq<char>>>, count: nat)

  /** The state of collection: both tables and the warnings so far. */
  datatype Collected = Collected(functions: Found, defines: Found, warnings: seq<seq<char>>)

  /** The outcome of offering one token to one table. */
  datatype Offered = Offered(found: Found, warned: bool)

  // ---------------------------------------------------------------------------
  // Classifying a token.

  /** The third-byte test as written: it reads the buffer two bytes past the
      token start, which lies inside the buffer only when that index does. */
  predicate ThirdIsUpperAsWritten(buf: seq<char>, t: Span)
    requires t.start + 2 < |buf|
  {
    IsUpperCase(buf[t.start + 2])
  }

  /** The third-byte test reading nothing outside the buffer: a byte past the
      end counts as not upper case. */
  predicate ThirdIsUpper(buf: seq<char>, t: Span) {
    t.start + 2 < |buf| && IsUpperCase(buf[t.start + 2])
  }

  /** A token that may name a function: StartsWith `gl`, then the upper-case test. */
  predicate IsFunctionToken(buf: seq<char>, t: Span)
    requires t.End() <= |buf|
  {
    StartsWith(Text(buf, t), "gl") && ThirdIsUpper(buf, t)
  }

  /** A token that may name a constant. */
  predicate IsDefineToken(buf: seq<char>, t: Span)
    requires t.End() <= |buf|
  {
    StartsWith(Text(buf, t), "GL_")
  }

  /** The token `g` just before the closing NUL passes the StartsWith test,
      and the byte the third-byte test reads is one past the buffer. */
  lemma ThirdCharOverread()
    ensures var buf := ['g', Nul];
            var t := NextToken(buf, 0);
            Terminated(buf) && t == Span(0, 1) && StartsWith(Text(buf, t), "gl") &&
            t.start + 2 == |buf|
  {
    var buf := ['g', Nul];
    assert SkipEnd(buf, 0) == 0;
    assert RunEnd(buf, 1) == 1;
    assert RunEnd(buf, 0) == 1;
    assert Text(buf, Span(0, 1)) == ['g'];
  }

  /** What the function-token test accepts: for a token of two or more
      characters, exactly `gl` followed by an upper-case letter inside the
      token; for the one-letter token `g`, whatever upper-case byte stands
      two places after it. Where the buffer holds the byte, the test is the
      one written. */
  lemma FunctionTokenShape(buf: seq<char>, at: nat)
    requires Terminated(buf) && at < |buf|
    ensures var t := NextToken(buf, at);
            var tok := Text(buf, t);
            (t.len >= 2 ==>
              (IsFunctionToken(buf, t) <==> |tok| >= 3 && tok[0] == 'g' && tok[1] == 'l' && IsUpperCase(tok[2]))) &&
            (t.len == 1 ==>
              (IsFunctionToken(buf, t) <==> tok == "g" && t.start + 2 < |buf| && IsUpperCase(buf[t.start + 2]))) &&
            (t.start + 2 < |buf| ==> (ThirdIsUpper(buf, t) <==> ThirdIsUpperAsWritten(buf, t)))
  {
    var t := NextToken(buf, at);
    var tok := Text(buf, t);
    if t.len == 2 {
      assert !IsIdentifier(buf[t.start + 2]);
    } else if t.len > 2 {
      assert tok[2] == buf[t.start + 2];
    }
  }

  /** What the third-byte test is evidently meant to accept: a token of at
      least three bytes, `gl` and then an upper-case letter. */
  predicate IntendedFunctionToken(tok: seq<char>) {
    |tok| >= 3 && tok[0] == 'g' && tok[1] == 'l' && IsUpperCase(tok[2])
  }

  /** The function-token test agrees with the intended one on every token
      but the lone `g`, which the intended test rejects. */
  lemma FunctionTokenIntended(buf: seq<char>, at: nat)
    requires Terminated(buf) && at < |buf|
    ensures var t := NextToken(buf, at);
            var tok := Text(buf, t);
            (tok != "g" ==> (IsFunctionToken(buf, t) <==> IntendedFunctionToken(tok))) &&
            !IntendedFunctionToken("g")
  {
    FunctionTokenShape(buf, at);
    var t := NextToken(buf, at);
    if t.len == 1 && IsFunctionToken(buf, t) {
      assert Text(buf, t)[0] == 'g';
      assert Text(buf, t) == "g";
    }
  }

  /** In `g(X` the lone `g` passes the function-token test: the byte two
      places after it is the upper-case `X` of the next token. */
  lemma LoneLetterAccepted()
    ensures var buf := ['g', '(', 'X', Nul];
            var t := NextToken(buf, 0);
            Terminated(buf) && t == Span(0, 1) && IsFunctionToken(buf, t) &&
            !IntendedFunctionToken(Text(buf, t))
  {
    var buf := ['g', '(', 'X', Nul];
    assert SkipEnd(buf, 0) == 0;
    assert RunEnd(buf, 1) == 1;
    assert RunEnd(buf, 0) == 1;
    assert Text(buf, Span(0, 1)) == ['g'];
  }

  // ---------------------------------------------------------------------------
  // Resolving a token against the registry and the ignore list.

  /** Some ignore-list entry Equal-matches the token (Equal is a prefix test). */
  predicate Ignored(tok: seq<char>, ignores: seq<seq<char>>) {
    exists i :: 0 <= i < |ignores| && Equal(tok, ignores[i])
  }

  /** The answer of IsKnownOrIgnoredToken for a token with hash h. */
  predicate Resolved(arb: seq<Slot<ArbInfo>>, ignores: seq<seq<char>>, tok: seq<char>, h: bv32)
    requires |arb| == TableSize
  {
    Find(arb, h).Some? || Ignored(tok, ignores)
  }

  /** IsKnownOrIgnoredToken: look the hash up in the registry, then walk the
      ignore list. A false answer is the case the generator warns about. */
  method IsKnownOrIgnoredToken(arb: Table<ArbInfo>, ignores: seq<seq<char>>, tok: seq<char>, h: bv32)
    returns (found: bool)
    requires arb.Valid()
    ensures found == Resolved(arb.slots[..], ignores, tok, h)
  {
    found := false;
    var known := arb.GetToken(h);
    if known.Some? {
      found := true;
    } else {
      var i := 0;
      while i < |ignores|
        invariant 0 <= i <= |ignores| && !found
        invariant forall k :: 0 <= k < i ==> !Equal(tok, ignores[k])
      {
        if Equal(tok, ignores[i]) {
          found := true;
          break;
        }
        i := i + 1;
      }
    }
  }

  // ---------------------------------------------------------------------------
  // Offering a token to a discovered table.

  /** A token whose hash the table holds is passed over; an unresolved one is
      reported; any other is added and counted. The counter goes up even
      when a full table drops the token. */
  function Offer(f: Found, h: bv32, tok: seq<char>, resolved: bool): (r: Offered)
    requires |f.slots| == TableSize
    ensures |r.found.slots| == TableSize
  {
    if Find(f.slots, h).Some? then Offered(f, false)
    else if !resolved then Offered(f, true)
    else Offered(Found(Insert(f.slots, Slot(h, tok)), f.count + 1), false)
  }

  /** One guarded insertion of ParseFile on the arrays. */
  method OfferToken(table: Table<seq<char>>, count: nat, arb: Table<ArbInfo>, ignores: seq<seq<char>>,
                    tok: seq<char>, h: bv32)
    returns (newCount: nat, warned: bool)
    requires table.Valid() && arb.Valid()
    modifies table.slots
    ensures Offer(Found(old(table.slots[..]), count), h, tok, Resolved(old(arb.slots[..]), ignores, tok, h)) ==
            Offered(Found(table.slots[..], newCount), warned)
  {
    newCount, warned := count, false;
    var held := table.Contains(h);
    if !held {
      newCount, warned := OfferNew(table, count, arb, ignores, tok, h);
    }
  }

  /** The part of OfferToken for a hash the table does not hold yet: insert
      it when the registry or the ignore list resolves it, else warn. */
  method OfferNew(table: Table<seq<char>>, count: nat, arb: Table<ArbInfo>, ignores: seq<seq<char>>,
                  tok: seq<char>, h: bv32)
    returns (newCount: nat, warned: bool)
    requires table.Valid() && arb.Valid()
    modifies table.slots
    ensures warned == !Resolved(old(arb.slots[..]), ignores, tok, h)
    ensures newCount == if warned then count else count + 1
    ensures table.slots[..] == if warned then old(table.slots[..]) else Insert(old(table.slots[..]), Slot(h, tok))
  {
    newCount, warned := count, false;
    var known := IsKnownOrIgnoredToken(arb, ignores, tok, h);
    if known {
      var _ := table.AddToken(Slot(h, tok));
      newCount := count + 1;
    } else {
      warned := true;
    }
  }

  // ---------------------------------------------------------------------------
  // The scan of one file.

  predicate Sized(c: Collected) {
    |c.functions.slots| == TableSize && |c.defines.slots| == TableSize
  }

  function Note(warnings: seq<seq<char>>, tok: seq<char>, warned: bool): seq<seq<char>> {
    if warned then warnings + [tok] else warnings
  }

  /** One iteration of the loop of ParseFile from cursor `at`: the next token
      is offered to the functions table when it looks like a function and to
      the constants table when it looks like a constant. */
  function CollectStep(buf: seq<char>, at: nat, arb: seq<Slot<ArbInfo>>, ignores: seq<seq<char>>,
                       c: Collected): (r: Collected)
    requires Terminated(buf) && at < |buf| && |arb| == TableSize && Sized(c)
    ensures Sized(r)
  {
    var t := NextToken(buf, at);
    var tok := Text(buf, t);
    var h := Hash(tok);
    var c1 :=
      if IsFunctionToken(buf, t) then
        var o := Offer(c.functions, h, tok, Resolved(arb, ignores, tok, h));
        Collected(o.found, c.defines, Note(c.warnings, tok, o.warned))
      else c;
    if IsDefineToken(buf, t) then
      var o := Offer(c1.defines, h, tok, Resolved(arb, ignores, tok, h));
      Collected(c1.functions, o.found, Note(c1.warnings, tok, o.warned))
    else c1
  }

  /** The loop of ParseFile from cursor `at` to the first NUL. */
  function CollectFrom(buf: seq<char>, at: nat, arb: seq<Slot<ArbInfo>>, ignores: seq<seq<char>>,
                       c: Collected): (r: Collected)
    requires Terminated(buf) && at < |buf| && |arb| == TableSize && Sized(c)
    decreases |buf| - at
    ensures Sized(r)
  {
    if buf[at] == Nul then c
    else CollectFrom(buf, NextToken(buf, at).End(), arb, ignores, CollectStep(buf, at, arb, ignores, c))
  }

  /** ParseFile on a file's contents, or on a file that could not be read. */
  function CollectFile(contents: Option<seq<char>>, arb: seq<Slot<ArbInfo>>, ignores: seq<seq<char>>,
                       c: Collected): (r: Collected)
    requires |arb| == TableSize && Sized(c)
    ensures Sized(r)
  {
    match contents
    case None => c
    case Some(data) => CollectFrom(data + [Nul], 0, arb, ignores, c)
  }

  /** ParseFile: tokenize the file (its contents followed by the NUL the
      reader appends) and offer every candidate token. The warnings of this
      file are returned; an unreadable file changes nothing. */
  method ParseFile(contents: Option<seq<char>>, arb: Table<ArbInfo>,
                   functions: Table<seq<char>>, functionCount: nat,
                   defines: Table<seq<char>>, definesCount: nat, ignores: seq<seq<char>>)
    returns (success: bool, newFunctionCount: nat, newDefinesCount: nat, warnings: seq<seq<char>>)
    requires arb.Valid() && functions.Valid() && defines.Valid() && functions.slots != defines.slots
    modifies functions.slots, defines.slots
    ensures success <==> contents.Some?
    ensures CollectFile(contents, arb.slots[..], ignores,
                        Collected(Found(old(functions.slots[..]), functionCount),
                                  Found(old(defines.slots[..]), definesCount), [])) ==
            Collected(Found(functions.slots[..], newFunctionCount), Found(defines.slots[..], newDefinesCount), warnings)
  {
    newFunctionCount, newDefinesCount, warnings := functionCount, definesCount, [];
    if contents.None? {
      return false, newFunctionCount, newDefinesCount, warnings;
    }
    var buf := contents.value + [Nul];
    var tk := new Tokenizer(buf);
    ghost var arbSlots := arb.slots[..];
    ghost var c0 := Collected(Found(functions.slots[..], functionCount), Found(defines.slots[..], definesCount), []);
    while !tk.AtEnd()
      invariant tk.Valid() && tk.buf == buf
      invariant arb.slots[..] == arbSlots
      invariant CollectFrom(buf, tk.at, arbSlots, ignores,
                            Collected(Found(functions.slots[..], newFunctionCount),
                                      Found(defines.slots[..], newDefinesCount), warnings)) ==
                CollectFrom(buf, 0, arbSlots, ignores, c0)
      decreases |buf| - tk.at
    {
      ghost var at := tk.at;
      var tok := tk.ParseToken();
      newFunctionCount, newDefinesCount, warnings :=
        OfferCandidate(buf, at, tok, arb, functions, newFunctionCount, defines, newDefinesCount, ignores, warnings);
    }
    success := true;
  }

  /** The body of the loop of ParseFile: the token read at `at` is offered to
      the functions table when it looks like a function and to the constants
      table when it looks like a constant. */
  method OfferCandidate(buf: seq<char>, ghost at: nat, tok: Token, arb: Table<ArbInfo>,
                        functions: Table<seq<char>>, functionCount: nat,
                        defines: Table<seq<char>>, definesCount: nat,
                        ignores: seq<seq<char>>, warnings: seq<seq<char>>)
    returns (newFunctionCount: nat, newDefinesCount: nat, newWarnings: seq<seq<char>>)
    requires Terminated(buf) && at < |buf|
    requires tok.value == NextToken(buf, at) && tok.hash == Hash(Text(buf, tok.value))
    requires arb.Valid() && functions.Valid() && defines.Valid() && functions.slots != defines.slots
    modifies functions.slots, defines.slots
    ensures CollectStep(buf, at, old(arb.slots[..]), ignores,
                        Collected(Found(old(functions.slots[..]), functionCount),
                                  Found(old(defines.slots[..]), definesCount), warnings)) ==
            Collected(Found(functions.slots[..], newFunctionCount), Found(defines.slots[..], newDefinesCount),
                      newWarnings)
  {
    newFunctionCount, newDefinesCount, newWarnings := functionCount, definesCount, warnings;
    var text := Text(buf, tok.value);
    if IsFunctionToken(buf, tok.value) {
      var warned;
      newFunctionCount, warned := OfferToken(functions, newFunctionCount, arb, ignores, text, tok.hash);
      if warned {
        newWarnings := newWarnings + [text];
      }
    }
    if IsDefineToken(buf, tok.value) {
      var warned;
      newDefinesCount, warned := OfferToken(defines, newDefinesCount, arb, ignores, text, tok.hash);
      if warned {
        newWarnings := newWarnings + [text];
      }
    }
  }

  // ---------------------------------------------------------------------------
  // Seeding.

  /** AddCustomToken: add the hash of a name with no text (the generator
      leaves the token's text unset). */
  method AddCustomToken(table: Table<seq<char>>, value: seq<char>)
    requires table.Valid()
    modifies table.slots
    ensures table.slots[..] == Insert(old(table.slots[..]), Slot(Hash(value), []))
  {
    assert Text(value, Span(0, |value|)) == value;
    var h := GetStringHash(value, Span(0, |value|));
    var _ := table.AddToken(Slot(h, []));
  }

  /** A freshly allocated discovered table. */
  function EmptySlots(): (s: seq<Slot<seq<char>>>)
    ensures |s| == TableSize && Empty(s)
  {
    seq(TableSize, _ => Slot(0, []))
  }

  /** The constants table after its two seeds, with its count set to 2. */
  function SeedDefines(major: seq<char>, minor: seq<char>): Found {
    Found(Insert(Insert(EmptySlots(), Slot(Hash(major), [])), Slot(Hash(minor), [])), 2)
  }

  /** The functions table after its seed, with its count set to 1. */
  function SeedFunctions(get: seq<char>): Found {
    Found(Insert(EmptySlots(), Slot(Hash(get), [])), 1)
  }

  /** Each seed with a non-zero hash can be looked up after seeding. */
  lemma SeedsFound(major: seq<char>, minor: seq<char>, get: seq<char>)
    ensures Hash(major) != 0 ==> Find(SeedDefines(major, minor).slots, Hash(major)).Some?
    ensures Hash(minor) != 0 ==> Find(SeedDefines(major, minor).slots, Hash(minor)).Some?
    ensures Hash(get) != 0 ==> Find(SeedFunctions(get).slots, Hash(get)).Some?
  {
    var e := EmptySlots();
    var a := Slot(Hash(major), []);
    var b := Slot(Hash(minor), []);
    var first := Insert(e, a);
    assert e[0].hash == 0 && e[1].hash == 0;
    if Hash(major) != 0 {
      Room(e, a, Hash(major));
      FindAfterInsert(e, a);
      InsertKeeps(first, b);
      FindKept(first, Insert(first, b), Hash(major));
    }
    if Hash(minor) != 0 {
      Room(e, a, Hash(minor));
      FindAfterInsert(first, b);
    }
    if Hash(get) != 0 {
      Room(e, a, Hash(get));
      FindAfterInsert(e, Slot(Hash(get), []));
    }
  }

  /** A table whose first two slots are empty still has room after one insertion. */
  lemma Room(s: seq<Slot<seq<char>>>, e: Slot<seq<char>>, h: bv32)
    requires |s| == TableSize && s[0].hash == 0 && s[1].hash == 0
    ensures FirstEmpty(s, h).Some? && FirstEmpty(Insert(s, e), h).Some?
  {
    FirstEmptyNoneIffFull(s, h);
    var r := Insert(s, e);
    match FirstEmpty(s, e.hash)
    case None =>
      FirstEmptyNoneIffFull(r, h);
    case Some(p) =>
      var q := if p == 0 then 1 else 0;
      assert r[q].hash == 0;
      FirstEmptyNoneIffFull(r, h);
  }

  // ---------------------------------------------------------------------------
  // What collection keeps true.

  /** The entry a discovered table may hold for a scanned token: filed under
      the hash of its own text, starting with the table's prefix, and known to
      the registry or named by the ignore list. */
  ghost predicate Entry(arb: seq<Slot<ArbInfo>>, ignores: seq<seq<char>>, prefix: seq<char>, s: Slot<seq<char>>)
    requires |arb| == TableSize
  {
    s.hash == Hash(s.data) && StartsWith(s.data, prefix) && Resolved(arb, ignores, s.data, s.hash)
  }

  /** A discovered table: every occupied slot reachable by lookup, no hash
      held twice unless it is a seed's, at most `count` occupied slots, and
      every occupied slot other than a seed an Entry. */
  ghost predicate Admits(f: Found, arb: seq<Slot<ArbInfo>>, ignores: seq<seq<char>>, prefix: seq<char>,
                         seeds: set<bv32>)
    requires |arb| == TableSize
  {
    |f.slots| == TableSize && Reachable(f.slots) && DistinctExcept(f.slots, seeds) &&
    CountOccupied(f.slots) <= f.count &&
    forall p :: 0 <= p < |f.slots| && f.slots[p].hash != 0 && f.slots[p].hash !in seeds ==>
      Entry(arb, ignores, prefix, f.slots[p])
  }

  /** A warning names a candidate token that neither the registry nor the
      ignore list resolves. */
  ghost predicate Unresolved(arb: seq<Slot<ArbInfo>>, ignores: seq<seq<char>>, w: seq<char>)
    requires |arb| == TableSize
  {
    (StartsWith(w, "gl") || StartsWith(w, "GL_")) && !Resolved(arb, ignores, w, Hash(w))
  }

  /** The invariant of collection, for the seed hashes of each table. */
  ghost predicate Consistent(arb: seq<Slot<ArbInfo>>, ignores: seq<seq<char>>, fseeds: set<bv32>,
                             dseeds: set<bv32>, c: Collected)
    requires |arb| == TableSize
  {
    Admits(c.functions, arb, ignores, "gl", fseeds) && Admits(c.defines, arb, ignores, "GL_", dseeds) &&
    forall w :: w in c.warnings ==> Unresolved(arb, ignores, w)
  }

  /** The seeded tables satisfy the invariant, whatever the seed hashes. */
  lemma SeedsConsistent(arb: seq<Slot<ArbInfo>>, ignores: seq<seq<char>>, major: seq<char>, minor: seq<char>,
                        get: seq<char>)
    requires |arb| == TableSize
    ensures Consistent(arb, ignores, {Hash(get)}, {Hash(major), Hash(minor)},
                       Collected(SeedFunctions(get), SeedDefines(major, minor), []))
  {
    var e := EmptySlots();
    EmptySound(e);
    var ds := {Hash(major), Hash(minor)};
    var a := Slot(Hash(major), []);
    var b := Slot(Hash(minor), []);
    InsertReachable(e, a);
    InsertDistinct(e, a, ds);
    InsertCountBound(e, a);
    InsertReachable(Insert(e, a), b);
    InsertDistinct(Insert(e, a), b, ds);
    InsertCountBound(Insert(e, a), b);
    var g := Slot(Hash(get), []);
    InsertReachable(e, g);
    InsertDistinct(e, g, {Hash(get)});
    InsertCountBound(e, g);
    OnlySeeds(e, a, ds);
    OnlySeeds(Insert(e, a), b, ds);
    OnlySeeds(e, g, {Hash(get)});
  }

  /** Inserting a seed into a table whose occupied slots are all seeds keeps it so. */
  lemma OnlySeeds(s: seq<Slot<seq<char>>>, e: Slot<seq<char>>, seeds: set<bv32>)
    requires |s| == TableSize && e.hash in seeds
    requires forall p :: 0 <= p < |s| && s[p].hash != 0 ==> s[p].hash in seeds
    ensures forall p :: 0 <= p < |s| && Insert(s, e)[p].hash != 0 ==> Insert(s, e)[p].hash in seeds
  {
    if FirstEmpty(s, e.hash).Some? {
      InsertWritesFirstEmpty(s, e, FirstEmpty(s, e.hash).value);
    }
  }

  /** Offering a candidate keeps the table's invariant and every occupied
      slot; a warning is given only for an unresolved token. */
  lemma OfferAdmits(f: Found, arb: seq<Slot<ArbInfo>>, ignores: seq<seq<char>>, prefix: seq<char>,
                    seeds: set<bv32>, tok: seq<char>)
    requires |arb| == TableSize && Admits(f, arb, ignores, prefix, seeds) && StartsWith(tok, prefix)
    ensures var o := Offer(f, Hash(tok), tok, Resolved(arb, ignores, tok, Hash(tok)));
            Admits(o.found, arb, ignores, prefix, seeds) && Keeps(f.slots, o.found.slots) &&
            (o.warned ==> !Resolved(arb, ignores, tok, Hash(tok)))
  {
    var h := Hash(tok);
    var s := f.slots;
    if Find(s, h).None? && Resolved(arb, ignores, tok, h) {
      var e := Slot(h, tok);
      var r := Insert(s, e);
      if h != 0 {
        FindComplete(s, h);
      }
      InsertReachable(s, e);
      InsertDistinct(s, e, seeds);
      InsertCountBound(s, e);
      InsertKeeps(s, e);
      if FirstEmpty(s, h).Some? {
        var p := FirstEmpty(s, h).value;
        InsertWritesFirstEmpty(s, e, p);
        forall q | 0 <= q < |r| && r[q].hash != 0 && r[q].hash !in seeds
          ensures Entry(arb, ignores, prefix, r[q])
        {
          if q != p {
            assert r[q] == s[q];
          }
        }
      }
    }
  }

  /** One token keeps the invariant and every occupied slot of both tables. */
  lemma CollectStepConsistent(buf: seq<char>, at: nat, arb: seq<Slot<ArbInfo>>, ignores: seq<seq<char>>,
                              fseeds: set<bv32>, dseeds: set<bv32>, c: Collected)
    requires Terminated(buf) && at < |buf| && |arb| == TableSize && Consistent(arb, ignores, fseeds, dseeds, c)
    ensures var r := CollectStep(buf, at, arb, ignores, c);
            Consistent(arb, ignores, fseeds, dseeds, r) &&
            Keeps(c.functions.slots, r.functions.slots) && Keeps(c.defines.slots, r.defines.slots)
  {
    var t := NextToken(buf, at);
    var tok := Text(buf, t);
    var h := Hash(tok);
    var c1 := c;
    if IsFunctionToken(buf, t) {
      OfferAdmits(c.functions, arb, ignores, "gl", fseeds, tok);
      var o := Offer(c.functions, h, tok, Resolved(arb, ignores, tok, h));
      NoteUnresolved(arb, ignores, c.warnings, tok, o.warned);
      c1 := Collected(o.found, c.defines, Note(c.warnings, tok, o.warned));
    }
    if IsDefineToken(buf, t) {
      OfferAdmits(c1.defines, arb, ignores, "GL_", dseeds, tok);
      var o := Offer(c1.defines, h, tok, Resolved(arb, ignores, tok, h));
      NoteUnresolved(arb, ignores, c1.warnings, tok, o.warned);
    }
  }

  /** Noting a warning only for an unresolved candidate keeps every warning
      unresolved. */
  lemma NoteUnresolved(arb: seq<Slot<ArbInfo>>, ignores: seq<seq<char>>, warnings: seq<seq<char>>,
                       tok: seq<char>, warned: bool)
    requires |arb| == TableSize && forall w :: w in warnings ==> Unresolved(arb, ignores, w)
    requires warned ==> (StartsWith(tok, "gl") || StartsWith(tok, "GL_")) && !Resolved(arb, ignores, tok, Hash(tok))
    ensures forall w :: w in Note(warnings, tok, warned) ==> Unresolved(arb, ignores, w)
  {
  }

  /** The scan of a file keeps the invariant and every occupied slot: in
      particular the seeds stay where seeding put them. */
  lemma {:induction false} CollectFromConsistent(buf: seq<char>, at: nat, arb: seq<Slot<ArbInfo>>,
                                                 ignores: seq<seq<char>>, fseeds: set<bv32>, dseeds: set<bv32>,
                                                 c: Collected)
    requires Terminated(buf) && at < |buf| && |arb| == TableSize && Consistent(arb, ignores, fseeds, dseeds, c)
    decreases |buf| - at
    ensures var r := CollectFrom(buf, at, arb, ignores, c);
            Consistent(arb, ignores, fseeds, dseeds, r) &&
            Keeps(c.functions.slots, r.functions.slots) && Keeps(c.defines.slots, r.defines.slots)
  {
    if buf[at] != Nul {
      var next := CollectStep(buf, at, arb, ignores, c);
      CollectStepConsistent(buf, at, arb, ignores, fseeds, dseeds, c);
      CollectFromConsistent(buf, NextToken(buf, at).End(), arb, ignores, fseeds, dseeds, next);
    }
  }

  /** ParseFile on any file, readable or not, keeps the invariant and every
      occupied slot. */
  lemma CollectFileConsistent(contents: Option<seq<char>>, arb: seq<Slot<ArbInfo>>, ignores: seq<seq<char>>,
                              fseeds: set<bv32>, dseeds: set<bv32>, c: Collected)
    requires |arb| == TableSize && Consistent(arb, ignores, fseeds, dseeds, c)
    ensures var r := CollectFile(contents, arb, ignores, c);
            Consistent(arb, ignores, fseeds, dseeds, r) &&
            Keeps(c.functions.slots, r.functions.slots) && Keeps(c.defines.slots, r.defines.slots)
  {
    if contents.Some? {
      CollectFromConsistent(contents.value + [Nul], 0, arb, ignores, fseeds, dseeds, c);
    }
  }

  // ---------------------------------------------------------------------------
  // Which tokens are warned about.

  /** Whether scanning the token at `at` warns: it is a `gl` candidate whose
      hash the functions table does not hold, or a `GL_` candidate whose hash
      the constants table does not hold, and it is unresolved. */
  predicate WarnsAbout(buf: seq<char>, at: nat, arb: seq<Slot<ArbInfo>>, ignores: seq<seq<char>>, c: Collected)
    requires Terminated(buf) && at < |buf| && |arb| == TableSize && Sized(c)
  {
    var t := NextToken(buf, at);
    var tok := Text(buf, t);
    var h := Hash(tok);
    ((IsFunctionToken(buf, t) && Find(c.functions.slots, h).None?) ||
     (IsDefineToken(buf, t) && Find(c.defines.slots, h).None?)) &&
    !Resolved(arb, ignores, tok, h)
  }

  /** One token adds one warning, naming it, when it warns, and none
      otherwise: no token is offered to both tables, since a `gl` token
      starts with `g` and a `GL_` token with `G`. */
  lemma CollectStepWarnings(buf: seq<char>, at: nat, arb: seq<Slot<ArbInfo>>, ignores: seq<seq<char>>,
                            c: Collected)
    requires Terminated(buf) && at < |buf| && |arb| == TableSize && Sized(c)
    ensures CollectStep(buf, at, arb, ignores, c).warnings ==
            c.warnings + (if WarnsAbout(buf, at, arb, ignores, c) then [Text(buf, NextToken(buf, at))] else [])
  {
    var t := NextToken(buf, at);
    if IsFunctionToken(buf, t) {
      assert Text(buf, t)[0] == 'g';
    }
  }

  /** The hashes of the tokens the ignore list resolves: those of the
      non-empty prefixes of its entries. */
  ghost predicate IgnoreHash(ignores: seq<seq<char>>, h: bv32) {
    exists i, k :: 0 <= i < |ignores| && 0 < k <= |ignores[i]| && Hash(ignores[i][..k]) == h
  }

  /** A hash an unresolved token may share with a slot the tables hold
      anyway: a seed's, or that of a token the ignore list resolves. */
  ghost predicate Shadowed(ignores: seq<seq<char>>, seeds: set<bv32>, h: bv32) {
    h in seeds || IgnoreHash(ignores, h)
  }

  /** No token of `ws` has a shadowed hash. */
  ghost predicate Unshadowed(ignores: seq<seq<char>>, seeds: set<bv32>, ws: seq<seq<char>>) {
    forall w :: w in ws ==> !Shadowed(ignores, seeds, Hash(w))
  }

  /** Every hash a table satisfying the invariant holds is a seed's, the
      registry's, or that of a token the ignore list resolves. */
  lemma HeldHash(f: Found, arb: seq<Slot<ArbInfo>>, ignores: seq<seq<char>>, prefix: seq<char>,
                 seeds: set<bv32>, h: bv32)
    requires |arb| == TableSize && Admits(f, arb, ignores, prefix, seeds) && Find(f.slots, h).Some?
    ensures h in seeds || Find(arb, h).Some? || IgnoreHash(ignores, h)
  {
    var s := f.slots[Find(f.slots, h).value];
    if h !in seeds && Find(arb, h).None? {
      assert Entry(arb, ignores, prefix, s);
      var i :| 0 <= i < |ignores| && Equal(s.data, ignores[i]);
      assert Hash(ignores[i][..|s.data|]) == h;
    }
  }

  /** The token at `at` when it is an unresolved candidate; nothing otherwise. */
  function UnresolvedAt(buf: seq<char>, at: nat, arb: seq<Slot<ArbInfo>>, ignores: seq<seq<char>>)
    : seq<seq<char>>
    requires Terminated(buf) && at < |buf| && |arb| == TableSize
  {
    var t := NextToken(buf, at);
    var tok := Text(buf, t);
    if (IsFunctionToken(buf, t) || IsDefineToken(buf, t)) && !Resolved(arb, ignores, tok, Hash(tok)) then [tok]
    else []
  }

  /** The `gl` and `GL_` candidates from `at` to the terminator, in order
      and once per occurrence, that neither the registry nor the ignore list
      resolves. */
  function Unresolveds(buf: seq<char>, at: nat, arb: seq<Slot<ArbInfo>>, ignores: seq<seq<char>>)
    : (r: seq<seq<char>>)
    requires Terminated(buf) && at < |buf| && |arb| == TableSize
    decreases |buf| - at
    ensures forall w :: w in r ==> Unresolved(arb, ignores, w)
  {
    if buf[at] == Nul then []
    else UnresolvedAt(buf, at, arb, ignores) + Unresolveds(buf, NextToken(buf, at).End(), arb, ignores)
  }

  /** Under the invariant, one token warns exactly when it is an unresolved
      candidate, provided its hash is not shadowed. */
  lemma StepWarnsExactly(buf: seq<char>, at: nat, arb: seq<Slot<ArbInfo>>, ignores: seq<seq<char>>,
                         fseeds: set<bv32>, dseeds: set<bv32>, c: Collected)
    requires Terminated(buf) && at < |buf| && |arb| == TableSize && Consistent(arb, ignores, fseeds, dseeds, c)
    requires Unshadowed(ignores, fseeds + dseeds, UnresolvedAt(buf, at, arb, ignores))
    ensures CollectStep(buf, at, arb, ignores, c).warnings == c.warnings + UnresolvedAt(buf, at, arb, ignores)
  {
    var t := NextToken(buf, at);
    var h := Hash(Text(buf, t));
    CollectStepWarnings(buf, at, arb, ignores, c);
    if Find(c.functions.slots, h).Some? {
      HeldHash(c.functions, arb, ignores, "gl", fseeds, h);
    }
    if Find(c.defines.slots, h).Some? {
      HeldHash(c.defines, arb, ignores, "GL_", dseeds, h);
    }
  }

  /** One step of the scan keeps the invariant and the hypothesis, and
      notes the token's warning, if it has one. */
  lemma WarnStep(buf: seq<char>, at: nat, arb: seq<Slot<ArbInfo>>, ignores: seq<seq<char>>,
                 fseeds: set<bv32>, dseeds: set<bv32>, c: Collected)
    requires Terminated(buf) && at < |buf| && buf[at] != Nul && |arb| == TableSize
    requires Consistent(arb, ignores, fseeds, dseeds, c)
    requires Unshadowed(ignores, fseeds + dseeds, Unresolveds(buf, at, arb, ignores))
    ensures Consistent(arb, ignores, fseeds, dseeds, CollectStep(buf, at, arb, ignores, c))
    ensures Unshadowed(ignores, fseeds + dseeds, Unresolveds(buf, NextToken(buf, at).End(), arb, ignores))
    ensures CollectStep(buf, at, arb, ignores, c).warnings == c.warnings + UnresolvedAt(buf, at, arb, ignores)
  {
    var here := UnresolvedAt(buf, at, arb, ignores);
    var rest := Unresolveds(buf, NextToken(buf, at).End(), arb, ignores);
    assert Unresolveds(buf, at, arb, ignores) == here + rest;
    StepWarnsExactly(buf, at, arb, ignores, fseeds, dseeds, c);
    CollectStepConsistent(buf, at, arb, ignores, fseeds, dseeds, c);
  }

  /** Concatenation is associative. */
  lemma AppendAssoc<T>(a: seq<T>, b: seq<T>, c: seq<T>)
    ensures a + (b + c) == a + b + c
  {
  }

  /** When no unresolved candidate of the text shares its hash with a seed
      or an ignored token, the scan warns exactly about the unresolved
      candidates, once per occurrence and in order. */
  lemma {:induction false} CollectFromWarnings(buf: seq<char>, at: nat, arb: seq<Slot<ArbInfo>>,
                                               ignores: seq<seq<char>>, fseeds: set<bv32>, dseeds: set<bv32>,
                                               c: Collected)
    requires Terminated(buf) && at < |buf| && |arb| == TableSize && Consistent(arb, ignores, fseeds, dseeds, c)
    requires Unshadowed(ignores, fseeds + dseeds, Unresolveds(buf, at, arb, ignores))
    decreases |buf| - at
    ensures CollectFrom(buf, at, arb, ignores, c).warnings == c.warnings + Unresolveds(buf, at, arb, ignores)
  {
    if buf[at] != Nul {
      var next := NextToken(buf, at).End();
      WarnStep(buf, at, arb, ignores, fseeds, dseeds, c);
      CollectFromWarnings(buf, next, arb, ignores, fseeds, dseeds, CollectStep(buf, at, arb, ignores, c));
      AppendAssoc(c.warnings, UnresolvedAt(buf, at, arb, ignores), Unresolveds(buf, next, arb, ignores));
    }
  }

  /** The unresolved candidates of a file that reads; none for one that does not. */
  function FileUnresolveds(contents: Option<seq<char>>, arb: seq<Slot<ArbInfo>>, ignores: seq<seq<char>>)
    : seq<seq<char>>
    requires |arb| == TableSize
  {
    match contents
    case None => []
    case Some(data) => Unresolveds(data + [Nul], 0, arb, ignores)
  }

  /** ParseFile warns exactly about the file's unresolved candidates, in
      order, when none shares its hash with a seed or an ignored token. */
  lemma CollectFileWarnings(contents: Option<seq<char>>, arb: seq<Slot<ArbInfo>>, ignores: seq<seq<char>>,
                            fseeds: set<bv32>, dseeds: set<bv32>, c: Collected)
    requires |arb| == TableSize && Consistent(arb, ignores, fseeds, dseeds, c)
    requires Unshadowed(ignores, fseeds + dseeds, FileUnresolveds(contents, arb, ignores))
    ensures CollectFile(contents, arb, ignores, c).warnings == c.warnings + FileUnresolveds(contents, arb, ignores)
  {
    if contents.Some? {
      CollectFromWarnings(contents.value + [Nul], 0, arb, ignores, fseeds, dseeds, c);
    }
  }

  // ---------------------------------------------------------------------------
  // Which tokens are held.

  /** The candidates offered to the functions table (`constants` false) or
      to the constants table (`constants` true). */
  predicate IsCandidate(buf: seq<char>, t: Span, constants: bool)
    requires t.End() <= |buf|
  {
    if constants then IsDefineToken(buf, t) else IsFunctionToken(buf, t)
  }

  /** The functions table or the constants table of a collection state. */
  function Discovered(c: Collected, constants: bool): Found {
    if constants then c.defines else c.functions
  }

  /** Every slot of the table is occupied. */
  ghost predicate Full(s: seq<Slot<seq<char>>>) {
    forall p :: 0 <= p < |s| ==> s[p].hash != 0
  }

  /** Every slot empty in `s` and occupied in `r` holds, under its own hash,
      one of the tokens `ws`. */
  ghost predicate NewFrom(s: seq<Slot<seq<char>>>, r: seq<Slot<seq<char>>>, ws: seq<seq<char>>) {
    |s| == |r| &&
    forall p :: 0 <= p < |s| && s[p].hash == 0 && r[p].hash != 0 ==> r[p].data in ws && r[p].hash == Hash(r[p].data)
  }

  /** Every token of `ws` with a non-zero hash can be looked up in `s`. */
  ghost predicate AllHeld(s: seq<Slot<seq<char>>>, ws: seq<seq<char>>)
    requires |s| == TableSize
  {
    forall w :: w in ws && Hash(w) != 0 ==> Find(s, Hash(w)).Some?
  }

  /** The token at `at` when it is a candidate for the chosen table that the
      registry or the ignore list resolves; nothing otherwise. */
  function ResolvedAt(buf: seq<char>, at: nat, arb: seq<Slot<ArbInfo>>, ignores: seq<seq<char>>, constants: bool)
    : seq<seq<char>>
    requires Terminated(buf) && at < |buf| && |arb| == TableSize
  {
    var t := NextToken(buf, at);
    var tok := Text(buf, t);
    if IsCandidate(buf, t, constants) && Resolved(arb, ignores, tok, Hash(tok)) then [tok] else []
  }

  /** The resolved candidates for the chosen table from `at` to the
      terminator, in order and once per occurrence. */
  function Resolveds(buf: seq<char>, at: nat, arb: seq<Slot<ArbInfo>>, ignores: seq<seq<char>>, constants: bool)
    : (r: seq<seq<char>>)
    requires Terminated(buf) && at < |buf| && |arb| == TableSize
    decreases |buf| - at
    ensures forall w :: w in r ==> StartsWith(w, if constants then "GL_" else "gl") && Resolved(arb, ignores, w, Hash(w))
  {
    if buf[at] == Nul then []
    else ResolvedAt(buf, at, arb, ignores, constants) + Resolveds(buf, NextToken(buf, at).End(), arb, ignores, constants)
  }

  /** One token is offered to the chosen table when it is a candidate for
      it, whatever it does to the other table. */
  lemma StepDiscovered(buf: seq<char>, at: nat, arb: seq<Slot<ArbInfo>>, ignores: seq<seq<char>>,
                       c: Collected, constants: bool)
    requires Terminated(buf) && at < |buf| && |arb| == TableSize && Sized(c)
    ensures var t := NextToken(buf, at);
            var tok := Text(buf, t);
            Discovered(CollectStep(buf, at, arb, ignores, c), constants) ==
              if IsCandidate(buf, t, constants)
              then Offer(Discovered(c, constants), Hash(tok), tok, Resolved(arb, ignores, tok, Hash(tok))).found
              else Discovered(c, constants)
  {
  }

  /** An offer changes no occupied slot, and a slot it fills holds the
      offered token under its hash, when the token resolves. */
  lemma OfferDraws(f: Found, tok: seq<char>, resolved: bool)
    requires |f.slots| == TableSize
    ensures var r := Offer(f, Hash(tok), tok, resolved).found.slots;
            Keeps(f.slots, r) && NewFrom(f.slots, r, if resolved then [tok] else [])
  {
    var e := Slot(Hash(tok), tok);
    InsertKeeps(f.slots, e);
    if FirstEmpty(f.slots, e.hash).Some? {
      InsertWritesFirstEmpty(f.slots, e, FirstEmpty(f.slots, e.hash).value);
    }
  }

  /** One token changes no occupied slot of the chosen table, and a slot it
      fills holds the token under the token's hash, which it resolves. */
  lemma CollectStepDraws(buf: seq<char>, at: nat, arb: seq<Slot<ArbInfo>>, ignores: seq<seq<char>>,
                         c: Collected, constants: bool)
    requires Terminated(buf) && at < |buf| && |arb| == TableSize && Sized(c)
    ensures var s := Discovered(c, constants).slots;
            var r := Discovered(CollectStep(buf, at, arb, ignores, c), constants).slots;
            Keeps(s, r) && NewFrom(s, r, ResolvedAt(buf, at, arb, ignores, constants))
  {
    var t := NextToken(buf, at);
    var tok := Text(buf, t);
    StepDiscovered(buf, at, arb, ignores, c, constants);
    if IsCandidate(buf, t, constants) {
      OfferDraws(Discovered(c, constants), tok, Resolved(arb, ignores, tok, Hash(tok)));
    }
  }

  /** One resolved candidate with a non-zero hash can be looked up in its
      table afterwards, unless the table was full. */
  lemma CollectStepHolds(buf: seq<char>, at: nat, arb: seq<Slot<ArbInfo>>, ignores: seq<seq<char>>,
                         c: Collected, constants: bool)
    requires Terminated(buf) && at < |buf| && |arb| == TableSize && Sized(c)
    requires !Full(Discovered(c, constants).slots)
    ensures AllHeld(Discovered(CollectStep(buf, at, arb, ignores, c), constants).slots,
                    ResolvedAt(buf, at, arb, ignores, constants))
  {
    var t := NextToken(buf, at);
    var tok := Text(buf, t);
    var h := Hash(tok);
    var s := Discovered(c, constants).slots;
    StepDiscovered(buf, at, arb, ignores, c, constants);
    if IsCandidate(buf, t, constants) && Find(s, h).None? && Resolved(arb, ignores, tok, h) && h != 0 {
      FirstEmptyNoneIffFull(s, h);
      FindAfterInsert(s, Slot(h, tok));
    }
  }

  /** The scan from `at` changes no occupied slot of the chosen table, and
      every slot it fills holds one of the text's resolved candidates under
      that candidate's hash. */
  lemma {:induction false} CollectFromDraws(buf: seq<char>, at: nat, arb: seq<Slot<ArbInfo>>,
                                            ignores: seq<seq<char>>, c: Collected, constants: bool)
    requires Terminated(buf) && at < |buf| && |arb| == TableSize && Sized(c)
    decreases |buf| - at
    ensures var s := Discovered(c, constants).slots;
            var r := Discovered(CollectFrom(buf, at, arb, ignores, c), constants).slots;
            Keeps(s, r) && NewFrom(s, r, Resolveds(buf, at, arb, ignores, constants))
  {
    if buf[at] != Nul {
      var next := CollectStep(buf, at, arb, ignores, c);
      CollectStepDraws(buf, at, arb, ignores, c, constants);
      CollectFromDraws(buf, NextToken(buf, at).End(), arb, ignores, next, constants);
    }
  }

  /** Unless the chosen table ends up full, the scan from `at` leaves every
      resolved candidate of the text with a non-zero hash in it. */
  lemma {:induction false} CollectFromHolds(buf: seq<char>, at: nat, arb: seq<Slot<ArbInfo>>,
                                            ignores: seq<seq<char>>, c: Collected, constants: bool)
    requires Terminated(buf) && at < |buf| && |arb| == TableSize && Sized(c)
    requires !Full(Discovered(CollectFrom(buf, at, arb, ignores, c), constants).slots)
    decreases |buf| - at
    ensures AllHeld(Discovered(CollectFrom(buf, at, arb, ignores, c), constants).slots,
                    Resolveds(buf, at, arb, ignores, constants))
  {
    if buf[at] != Nul {
      var next := CollectStep(buf, at, arb, ignores, c);
      var rest := NextToken(buf, at).End();
      var s1 := Discovered(next, constants).slots;
      var r := Discovered(CollectFrom(buf, rest, arb, ignores, next), constants).slots;
      CollectFromDraws(buf, rest, arb, ignores, next, constants);
      CollectStepDraws(buf, at, arb, ignores, c, constants);
      CollectStepHolds(buf, at, arb, ignores, c, constants);
      CollectFromHolds(buf, rest, arb, ignores, next, constants);
      forall w | w in ResolvedAt(buf, at, arb, ignores, constants) && Hash(w) != 0
        ensures Find(r, Hash(w)).Some?
      {
        FindKept(s1, r, Hash(w));
      }
    }
  }

  /** The resolved candidates of a file that reads; none for one that does not. */
  function FileResolveds(contents: Option<seq<char>>, arb: seq<Slot<ArbInfo>>, ignores: seq<seq<char>>,
                         constants: bool): seq<seq<char>>
    requires |arb| == TableSize
  {
    match contents
    case None => []
    case Some(data) => Resolveds(data + [Nul], 0, arb, ignores, constants)
  }

  /** ParseFile changes no occupied slot of the chosen table, and fills
      slots only with the file's resolved candidates; unless the table ends
      up full, it holds every one of them with a non-zero hash. */
  lemma CollectFileHolds(contents: Option<seq<char>>, arb: seq<Slot<ArbInfo>>, ignores: seq<seq<char>>,
                         c: Collected, constants: bool)
    requires |arb| == TableSize && Sized(c)
    ensures var s := Discovered(c, constants).slots;
            var r := Discovered(CollectFile(contents, arb, ignores, c), constants).slots;
            var ws := FileResolveds(contents, arb, ignores, constants);
            Keeps(s, r) && NewFrom(s, r, ws) && (!Full(r) ==> AllHeld(r, ws))
  {
    if contents.Some? {
      var buf := contents.value + [Nul];
      CollectFromDraws(buf, 0, arb, ignores, c, constants);
      if !Full(Discovered(CollectFrom(buf, 0, arb, ignores, c), constants).slots) {
        CollectFromHolds(buf, 0, arb, ignores, c, constants);
      }
    }
  }
}

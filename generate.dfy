/**
 * GenerateOpenGLHeader: splice the registry files, index their GLAPI and
 * #define lines, seed and collect the symbols the input files use, sort the
 * two discovered tables and write the header. File contents, whether the
 * output file opens, the timestamp and the platform loader block come in as
 * settings; the text written to the output file comes out.
 */
module Generate {
  import opened Strings
  import opened Tables
  import opened Registry
  import opened Usage
  import opened Sorting
  import opened Emit
  import opened MultiFile

  /** What the generator is given: registry files and input files by their
      contents (None when a file cannot be opened), whether the output file
      opens, the optional prefix, the boilerplate switch, the ignore list,
      the timestamp, and the platform loader block for the prefix. */
  datatype Settings = Settings(headers: seq<Option<seq<char>>>, inputs: seq<Option<seq<char>>>,
                               outputOpens: bool, prefix: Option<seq<char>>, boilerplate: bool,
                               ignores: seq<seq<char>>, timestamp: nat, loader: seq<char>)

  /** How a run ends: -1 with nothing written; a null pointer written through
      while indexing; a count past the table end read while emitting; or 0
      with the header text and the warnings for unresolved symbols. */
  datatype Outcome = Failed | NullWrite | Overread | Written(text: seq<char>, warnings: seq<seq<char>>)

  // The seed names are written as concatenations: a single literal is
  // unfolded character by character wherever a run is reasoned about.
  const MajorVersion: seq<char> := "GL_" + "MAJOR_VERSION"
  const MinorVersion: seq<char> := "GL_" + "MINOR_VERSION"
  const GetIntegerv: seq<char> := "gl" + "GetIntegerv"

  /** ReadEntireFile: an empty file reads as no file. */
  function ReadEntire(file: Option<seq<char>>): (r: Option<seq<char>>)
    ensures r.Some? <==> file.Some? && file.value != []
    ensures r.Some? ==> r == file
  {
    match file
    case None => None
    case Some(c) => if c == [] then None else file
  }

  /** The discovered tables after ParseFile on each input in order, and all
      the warnings, file after file. */
  function CollectAll(inputs: seq<Option<seq<char>>>, arb: seq<Slot<ArbInfo>>, ignores: seq<seq<char>>,
                      functions: Found, defines: Found): (r: Collected)
    requires |arb| == TableSize && |functions.slots| == TableSize && |defines.slots| == TableSize
    ensures Sized(r)
  {
    if inputs == [] then Collected(functions, defines, [])
    else
      var prev := CollectAll(inputs[..|inputs| - 1], arb, ignores, functions, defines);
      var file := CollectFile(ReadEntire(inputs[|inputs| - 1]), arb, ignores,
                              Collected(prev.functions, prev.defines, []));
      Collected(file.functions, file.defines, prev.warnings + file.warnings)
  }

  /** The seeded tables: GL_MAJOR_VERSION and GL_MINOR_VERSION among the
      constants with the count set to 2, glGetIntegerv among the functions
      with the count set to 1. */
  function Seeded(): (c: Collected)
    ensures Sized(c) && c.functions.count == 1 && c.defines.count == 2 && c.warnings == []
  {
    Collected(SeedFunctions(GetIntegerv), SeedDefines(MajorVersion, MinorVersion), [])
  }

  /** The prefix the header uses: none given means the empty prefix. */
  function PrefixOf(s: Settings): (p: seq<char>)
    ensures s.prefix.Some? ==> p == s.prefix.value
    ensures s.prefix.None? ==> p == []
  {
    if s.prefix.Some? then s.prefix.value else []
  }

  /** Emission from the collected tables with the fixed text `b`: a count
      past the table end reads beyond it; otherwise the header over both
      tables sorted. */
  function Finish(s: Settings, b: Blocks, buf: seq<char>, arb: seq<Slot<ArbInfo>>, c: Collected): Outcome
    requires |arb| == TableSize && Fits(buf, arb) && Sized(c)
  {
    if c.functions.count > TableSize || c.defines.count > TableSize then Overread
    else
      Written(Header(b, PrefixOf(s), s.boilerplate, buf, arb,
                     SortDesc(c.functions.slots), c.functions.count,
                     SortDesc(c.defines.slots), c.defines.count),
              c.warnings)
  }

  /** The run once the registry text is read: index it, then collect and
      emit from the given seeded tables with the fixed text `b`. */
  function FromData(s: Settings, seeds: Collected, b: Blocks, data: seq<char>): Outcome
    requires Sized(seeds) && Terminated(data)
  {
    match IndexRegistry(data)
    case Crashed => NullWrite
    case Scanned(reg) =>
      IndexRegistrySound(data);
      InvFits(data, reg);
      Finish(s, b, data, reg.slots, CollectAll(s.inputs, reg.slots, s.ignores, seeds.functions, seeds.defines))
  }

  /** A run from the given seeded tables and fixed text: -1 without inputs,
      output file or registry text. */
  function Run(s: Settings, seeds: Collected, b: Blocks): Outcome
    requires Sized(seeds)
  {
    var data := Spliced(s.headers);
    if |s.inputs| == 0 || !s.outputOpens || data.None? then Failed
    else
      SplicedJoined(s.headers);
      FromData(s, seeds, b, data.value)
  }

  /** What GenerateOpenGLHeader does with the given settings. */
  function Generated(s: Settings): Outcome {
    Run(s, Seeded(), Fixed(PrefixOf(s), s.timestamp, s.loader))
  }

  // ---------------------------------------------------------------------------
  // What a run promises.

  /** Collection over all the inputs keeps the invariant: every discovered
      symbol other than a seed is a resolved candidate with its own hash, no
      non-seed hash is held twice, the counts bound the occupied slots, and
      every warning names an unresolved candidate. */
  lemma {:induction false} CollectAllConsistent(inputs: seq<Option<seq<char>>>, arb: seq<Slot<ArbInfo>>,
                                                ignores: seq<seq<char>>, fseeds: set<bv32>, dseeds: set<bv32>,
                                                functions: Found, defines: Found)
    requires |arb| == TableSize && Consistent(arb, ignores, fseeds, dseeds, Collected(functions, defines, []))
    ensures Consistent(arb, ignores, fseeds, dseeds, CollectAll(inputs, arb, ignores, functions, defines))
  {
    if inputs != [] {
      var init := inputs[..|inputs| - 1];
      CollectAllConsistent(init, arb, ignores, fseeds, dseeds, functions, defines);
      var prev := CollectAll(init, arb, ignores, functions, defines);
      CollectFileConsistent(ReadEntire(inputs[|inputs| - 1]), arb, ignores, fseeds, dseeds,
                            Collected(prev.functions, prev.defines, []));
    }
  }

  /** The seeded tables and everything collected from them keep the
      invariant for the seed hashes. */
  lemma SeededConsistent(inputs: seq<Option<seq<char>>>, arb: seq<Slot<ArbInfo>>, ignores: seq<seq<char>>)
    requires |arb| == TableSize
    ensures Consistent(arb, ignores, {Hash(GetIntegerv)}, {Hash(MajorVersion), Hash(MinorVersion)},
                       CollectAll(inputs, arb, ignores, Seeded().functions, Seeded().defines))
  {
    SeedsConsistent(arb, ignores, MajorVersion, MinorVersion, GetIntegerv);
    CollectAllConsistent(inputs, arb, ignores, {Hash(GetIntegerv)}, {Hash(MajorVersion), Hash(MinorVersion)},
                         Seeded().functions, Seeded().defines);
  }

  /** When a run ends, whatever the seeds and the fixed text: -1 exactly
      without inputs, output file or registry text; a null write exactly when
      indexing that text writes through the missing slot of a full
      registry. */
  lemma RunFails(s: Settings, seeds: Collected, b: Blocks)
    requires Sized(seeds)
    ensures Run(s, seeds, b).Failed? <==> |s.inputs| == 0 || !s.outputOpens || Present(s.headers) == []
    ensures Run(s, seeds, b).NullWrite? <==>
              |s.inputs| > 0 && s.outputOpens && Splice(s.headers) != [] && IndexRegistry(Splice(s.headers)).Crashed?
  {
    SplicedJoined(s.headers);
  }

  /** A run that does not fail at once indexes the spliced registry text. */
  lemma RunReads(s: Settings, seeds: Collected, b: Blocks)
    requires Sized(seeds) && !Run(s, seeds, b).Failed?
    ensures Splice(s.headers) != [] && Terminated(Splice(s.headers))
    ensures Run(s, seeds, b) == FromData(s, seeds, b, Splice(s.headers))
  {
    SplicedJoined(s.headers);
  }

  /** The text opens the include guard, and closes it when `closes`. */
  ghost predicate Guarded(text: seq<char>, closes: bool) {
    |OpenGuard| <= |text| && text[..|OpenGuard|] == OpenGuard && (closes ==> EndsWith(text, CloseGuard))
  }

  /** Once the registry text is read, a written header opens the include
      guard, and closes it when the boilerplate is on, for any fixed text
      that frames the guard. */
  lemma FromDataGuarded(s: Settings, b: Blocks, data: seq<char>)
    requires Terminated(data) && Framed(b) && FromData(s, Seeded(), b, data).Written?
    ensures Guarded(FromData(s, Seeded(), b, data).text, s.boilerplate)
  {
    var reg := IndexRegistry(data).reg;
    IndexRegistrySound(data);
    InvFits(data, reg);
    var c := CollectAll(s.inputs, reg.slots, s.ignores, Seeded().functions, Seeded().defines);
    var functions, defines := SortDesc(c.functions.slots), SortDesc(c.defines.slots);
    HeaderOpensGuard(b, PrefixOf(s), s.boilerplate, data, reg.slots, functions, c.functions.count,
                     defines, c.defines.count);
    if s.boilerplate {
      HeaderClosesGuard(b, PrefixOf(s), data, reg.slots, functions, c.functions.count, defines, c.defines.count);
    }
  }

  /** A written header opens the include guard, and closes it when the
      boilerplate is on, for any fixed text that frames the guard (as
      FixedFramed shows the generator's own does). */
  lemma RunGuarded(s: Settings, b: Blocks)
    requires Framed(b) && Run(s, Seeded(), b).Written?
    ensures Guarded(Run(s, Seeded(), b).text, s.boilerplate)
  {
    RunReads(s, Seeded(), b);
    FromDataGuarded(s, b, Splice(s.headers));
  }

  /** Once the registry text is read, every warning names a `gl` or `GL_`
      candidate whose hash the registry does not hold and that no
      ignore-list entry matches. */
  lemma FromDataWarnings(s: Settings, b: Blocks, data: seq<char>, w: seq<char>)
    requires Terminated(data) && FromData(s, Seeded(), b, data).Written?
    requires w in FromData(s, Seeded(), b, data).warnings
    ensures StartsWith(w, "gl") || StartsWith(w, "GL_")
    ensures !Ignored(w, s.ignores)
    ensures IndexRegistry(data).Scanned? && |IndexRegistry(data).reg.slots| == TableSize &&
            Find(IndexRegistry(data).reg.slots, Hash(w)).None?
  {
    IndexRegistrySound(data);
    SeededConsistent(s.inputs, IndexRegistry(data).reg.slots, s.ignores);
  }

  /** `w` is a `gl` or `GL_` candidate that no ignore-list entry matches
      and whose hash the registry built from the registry files does not
      hold. */
  ghost predicate Unregistered(s: Settings, w: seq<char>) {
    var data := Splice(s.headers);
    (StartsWith(w, "gl") || StartsWith(w, "GL_")) && !Ignored(w, s.ignores) &&
    data != [] && IndexRegistry(data).Scanned? && |IndexRegistry(data).reg.slots| == TableSize &&
    Find(IndexRegistry(data).reg.slots, Hash(w)).None?
  }

  /** Whatever the fixed text, every warning of a written header names an
      unregistered candidate. */
  lemma RunWarnings(s: Settings, b: Blocks, w: seq<char>)
    requires Run(s, Seeded(), b).Written? && w in Run(s, Seeded(), b).warnings
    ensures Unregistered(s, w)
  {
    RunReads(s, Seeded(), b);
    FromDataWarnings(s, b, Splice(s.headers), w);
  }

  /** The unresolved candidates of every input that reads, file after file. */
  function AllUnresolved(inputs: seq<Option<seq<char>>>, arb: seq<Slot<ArbInfo>>, ignores: seq<seq<char>>)
    : seq<seq<char>>
    requires |arb| == TableSize
  {
    if inputs == [] then []
    else AllUnresolved(inputs[..|inputs| - 1], arb, ignores) +
         FileUnresolveds(ReadEntire(inputs[|inputs| - 1]), arb, ignores)
  }

  /** Collection over all the inputs warns exactly about their unresolved
      candidates, once per occurrence and in order, when none shares its
      hash with a seed or an ignored token. */
  lemma {:induction false} CollectAllWarnings(inputs: seq<Option<seq<char>>>, arb: seq<Slot<ArbInfo>>,
                                              ignores: seq<seq<char>>, fseeds: set<bv32>, dseeds: set<bv32>,
                                              functions: Found, defines: Found)
    requires |arb| == TableSize && Consistent(arb, ignores, fseeds, dseeds, Collected(functions, defines, []))
    requires Unshadowed(ignores, fseeds + dseeds, AllUnresolved(inputs, arb, ignores))
    ensures CollectAll(inputs, arb, ignores, functions, defines).warnings == AllUnresolved(inputs, arb, ignores)
  {
    if inputs != [] {
      var init := inputs[..|inputs| - 1];
      var file := FileUnresolveds(ReadEntire(inputs[|inputs| - 1]), arb, ignores);
      assert [] + file == file;
      assert Unshadowed(ignores, fseeds + dseeds, AllUnresolved(init, arb, ignores)) &&
             Unshadowed(ignores, fseeds + dseeds, file) by {
        assert AllUnresolved(inputs, arb, ignores) == AllUnresolved(init, arb, ignores) + file;
      }
      CollectAllWarnings(init, arb, ignores, fseeds, dseeds, functions, defines);
      CollectAllConsistent(init, arb, ignores, fseeds, dseeds, functions, defines);
      var prev := CollectAll(init, arb, ignores, functions, defines);
      CollectFileWarnings(ReadEntire(inputs[|inputs| - 1]), arb, ignores, fseeds, dseeds,
                          Collected(prev.functions, prev.defines, []));
    }
  }

  /** The hashes of the three seeds. */
  function SeedHashes(): set<bv32> {
    {Hash(GetIntegerv), Hash(MajorVersion), Hash(MinorVersion)}
  }

  /** The registry slots indexing the text builds, unless indexing crashes. */
  function RegistryOf(data: seq<char>): (r: Option<seq<Slot<ArbInfo>>>)
    requires Terminated(data)
    ensures r.Some? <==> IndexRegistry(data).Scanned?
    ensures r.Some? ==> |r.value| == TableSize
  {
    match IndexRegistry(data)
    case Crashed => None
    case Scanned(reg) => IndexRegistrySound(data); Some(reg.slots)
  }

  /** From the seeded tables, collection warns exactly about the unresolved
      candidates of the inputs, once per occurrence and in order, when none
      shares its hash with a seed or an ignored token. */
  lemma SeededWarnings(inputs: seq<Option<seq<char>>>, arb: seq<Slot<ArbInfo>>, ignores: seq<seq<char>>)
    requires |arb| == TableSize && Unshadowed(ignores, SeedHashes(), AllUnresolved(inputs, arb, ignores))
    ensures CollectAll(inputs, arb, ignores, Seeded().functions, Seeded().defines).warnings ==
            AllUnresolved(inputs, arb, ignores)
  {
    assert {Hash(GetIntegerv)} + {Hash(MajorVersion), Hash(MinorVersion)} == SeedHashes();
    SeedsConsistent(arb, ignores, MajorVersion, MinorVersion, GetIntegerv);
    CollectAllWarnings(inputs, arb, ignores, {Hash(GetIntegerv)}, {Hash(MajorVersion), Hash(MinorVersion)},
                       Seeded().functions, Seeded().defines);
  }

  /** A written header carries the warnings of collection over the registry
      the text builds. */
  lemma FromDataCollects(s: Settings, b: Blocks, data: seq<char>)
    requires Terminated(data) && FromData(s, Seeded(), b, data).Written?
    ensures RegistryOf(data).Some?
    ensures FromData(s, Seeded(), b, data).warnings ==
            CollectAll(s.inputs, RegistryOf(data).value, s.ignores, Seeded().functions, Seeded().defines).warnings
  {
  }

  /** Once the registry text is read, a written header's warnings are
      exactly the unresolved candidates of the inputs, once per occurrence
      and in order, when none shares its hash with a seed or an ignored
      token. */
  lemma FromDataWarningsExact(s: Settings, b: Blocks, data: seq<char>)
    requires Terminated(data) && RegistryOf(data).Some?
    requires Unshadowed(s.ignores, SeedHashes(), AllUnresolved(s.inputs, RegistryOf(data).value, s.ignores))
    requires FromData(s, Seeded(), b, data).Written?
    ensures FromData(s, Seeded(), b, data).warnings == AllUnresolved(s.inputs, RegistryOf(data).value, s.ignores)
  {
    FromDataCollects(s, b, data);
    SeededWarnings(s.inputs, RegistryOf(data).value, s.ignores);
  }

  /** The unresolved candidates of the inputs of `s`, file after file, for
      the registry the registry files build; none when they build none. */
  ghost function InputsUnresolved(s: Settings): seq<seq<char>> {
    var data := Splice(s.headers);
    if data != [] && RegistryOf(data).Some? then AllUnresolved(s.inputs, RegistryOf(data).value, s.ignores)
    else []
  }

  /** Whatever the fixed text, a written header warns exactly about the
      unresolved candidates of the inputs, once per occurrence and in order,
      when none shares its hash with a seed or an ignored token. */
  lemma RunWarningsExact(s: Settings, b: Blocks)
    requires Run(s, Seeded(), b).Written? && Unshadowed(s.ignores, SeedHashes(), InputsUnresolved(s))
    ensures Run(s, Seeded(), b).warnings == InputsUnresolved(s)
  {
    RunReads(s, Seeded(), b);
    FromDataCollects(s, b, Splice(s.headers));
    FromDataWarningsExact(s, b, Splice(s.headers));
  }

  /** The resolved candidates for the chosen table in every input that
      reads, file after file. */
  function AllResolved(inputs: seq<Option<seq<char>>>, arb: seq<Slot<ArbInfo>>, ignores: seq<seq<char>>,
                       constants: bool): seq<seq<char>>
    requires |arb| == TableSize
  {
    if inputs == [] then []
    else AllResolved(inputs[..|inputs| - 1], arb, ignores, constants) +
         FileResolveds(ReadEntire(inputs[|inputs| - 1]), arb, ignores, constants)
  }

  /** Collection over all the inputs changes no occupied slot of the chosen
      table, and every slot it fills holds a resolved candidate of the
      inputs under that candidate's hash. */
  lemma {:induction false} CollectAllDraws(inputs: seq<Option<seq<char>>>, arb: seq<Slot<ArbInfo>>,
                                           ignores: seq<seq<char>>, functions: Found, defines: Found,
                                           constants: bool)
    requires |arb| == TableSize && |functions.slots| == TableSize && |defines.slots| == TableSize
    ensures var s := Discovered(Collected(functions, defines, []), constants).slots;
            var r := Discovered(CollectAll(inputs, arb, ignores, functions, defines), constants).slots;
            Keeps(s, r) && NewFrom(s, r, AllResolved(inputs, arb, ignores, constants))
  {
    if inputs != [] {
      var init := inputs[..|inputs| - 1];
      CollectAllDraws(init, arb, ignores, functions, defines, constants);
      var prev := CollectAll(init, arb, ignores, functions, defines);
      CollectFileHolds(ReadEntire(inputs[|inputs| - 1]), arb, ignores,
                       Collected(prev.functions, prev.defines, []), constants);
    }
  }

  /** Unless the chosen table ends up full, collection over all the inputs
      leaves every resolved candidate of theirs with a non-zero hash in it. */
  lemma {:induction false} CollectAllHolds(inputs: seq<Option<seq<char>>>, arb: seq<Slot<ArbInfo>>,
                                           ignores: seq<seq<char>>, functions: Found, defines: Found,
                                           constants: bool)
    requires |arb| == TableSize && |functions.slots| == TableSize && |defines.slots| == TableSize
    requires !Full(Discovered(CollectAll(inputs, arb, ignores, functions, defines), constants).slots)
    ensures AllHeld(Discovered(CollectAll(inputs, arb, ignores, functions, defines), constants).slots,
                    AllResolved(inputs, arb, ignores, constants))
  {
    if inputs != [] {
      var init := inputs[..|inputs| - 1];
      var prev := CollectAll(init, arb, ignores, functions, defines);
      var mid := Discovered(prev, constants).slots;
      var r := Discovered(CollectAll(inputs, arb, ignores, functions, defines), constants).slots;
      CollectFileHolds(ReadEntire(inputs[|inputs| - 1]), arb, ignores,
                       Collected(prev.functions, prev.defines, []), constants);
      CollectAllHolds(init, arb, ignores, functions, defines, constants);
      forall w | w in AllResolved(init, arb, ignores, constants) && Hash(w) != 0
        ensures Find(r, Hash(w)).Some?
      {
        FindKept(mid, r, Hash(w));
      }
    }
  }

  /** The seed hashes of the chosen table. */
  function SeedsOf(constants: bool): set<bv32> {
    if constants then {Hash(MajorVersion), Hash(MinorVersion)} else {Hash(GetIntegerv)}
  }

  /** Seeding occupies slots of the seeds only, and holds each seed with a
      non-zero hash. */
  lemma SeededSlots(constants: bool)
    ensures var s := Discovered(Seeded(), constants).slots;
            (forall p :: 0 <= p < |s| && s[p].hash != 0 ==> s[p].hash in SeedsOf(constants)) &&
            (forall h :: h in SeedsOf(constants) && h != 0 ==> Holds(s, h))
  {
    var e := EmptySlots();
    var major := Slot(Hash(MajorVersion), []);
    OnlySeeds(e, major, SeedsOf(true));
    OnlySeeds(Insert(e, major), Slot(Hash(MinorVersion), []), SeedsOf(true));
    OnlySeeds(e, Slot(Hash(GetIntegerv), []), SeedsOf(false));
    SeedsFound(MajorVersion, MinorVersion, GetIntegerv);
  }

  /** After collection from the seeded tables, unless the chosen table ends
      up full, it holds a non-zero hash exactly when that is a seed's hash
      or the hash of a resolved candidate of the inputs. */
  lemma SeededHolds(inputs: seq<Option<seq<char>>>, arb: seq<Slot<ArbInfo>>, ignores: seq<seq<char>>,
                    constants: bool, h: bv32)
    requires |arb| == TableSize && h != 0
    requires !Full(Discovered(CollectAll(inputs, arb, ignores, Seeded().functions, Seeded().defines),
                              constants).slots)
    ensures Holds(Discovered(CollectAll(inputs, arb, ignores, Seeded().functions, Seeded().defines),
                             constants).slots, h) <==>
            h in SeedsOf(constants) || exists w :: w in AllResolved(inputs, arb, ignores, constants) && Hash(w) == h
  {
    var s := Discovered(Seeded(), constants).slots;
    var r := Discovered(CollectAll(inputs, arb, ignores, Seeded().functions, Seeded().defines), constants).slots;
    var ws := AllResolved(inputs, arb, ignores, constants);
    assert Discovered(Collected(Seeded().functions, Seeded().defines, []), constants) == Discovered(Seeded(), constants);
    CollectAllDraws(inputs, arb, ignores, Seeded().functions, Seeded().defines, constants);
    CollectAllHolds(inputs, arb, ignores, Seeded().functions, Seeded().defines, constants);
    SeededSlots(constants);
    if Holds(r, h) {
      var p :| 0 <= p < |r| && r[p].hash == h;
      if s[p].hash == 0 {
        assert r[p].data in ws && Hash(r[p].data) == h;
      }
    }
    if h in SeedsOf(constants) {
      var p :| 0 <= p < |s| && s[p].hash == h;
      assert r[p] == s[p];
    } else if exists w :: w in ws && Hash(w) == h {
      var w :| w in ws && Hash(w) == h;
      assert r[Find(r, h).value].hash == h;
    }
  }

  /** A slot some symbol of `s` is found at is one some symbol of any
      permutation of `s` is found at. */
  lemma PermutedFinds(arb: seq<Slot<ArbInfo>>, s: seq<Slot<seq<char>>>, t: seq<Slot<seq<char>>>, p: nat)
    requires |arb| == TableSize && multiset(s) == multiset(t)
    requires exists i :: 0 <= i < |s| && Find(arb, s[i].hash) == Some(p)
    ensures exists j :: 0 <= j < |t| && Find(arb, t[j].hash) == Some(p)
  {
    var i :| 0 <= i < |s| && Find(arb, s[i].hash) == Some(p);
    assert s[i] in multiset(t);
    var j :| 0 <= j < |t| && t[j] == s[i];
  }

  /** The sections over a discovered table, sorted as emission sorts it:
      one line per registry slot that some discovered symbol's hash is found
      at, in descending hash order. */
  lemma DiscoveredEmitted(arb: seq<Slot<ArbInfo>>, f: Found, p: nat)
    requires |arb| == TableSize && |f.slots| == TableSize && CountOccupied(f.slots) <= f.count <= TableSize
    ensures Descending(arb, Emitted(arb, SortDesc(f.slots), f.count))
    ensures p in Emitted(arb, SortDesc(f.slots), f.count) <==>
              exists i :: 0 <= i < TableSize && Find(arb, f.slots[i].hash) == Some(p)
  {
    var toks := SortDesc(f.slots);
    EmittedDescending(arb, toks, f.count);
    EmittedComplete(arb, toks, f.count, p);
    if exists i :: 0 <= i < |toks| && Find(arb, toks[i].hash) == Some(p) {
      PermutedFinds(arb, toks, f.slots, p);
    }
    if exists j :: 0 <= j < |f.slots| && Find(arb, f.slots[j].hash) == Some(p) {
      PermutedFinds(arb, f.slots, toks, p);
    }
  }

  /** The non-zero hashes a table holds are the seeds' and those of the
      tokens `ws`. */
  ghost predicate HoldsExactly(slots: seq<Slot<seq<char>>>, seeds: set<bv32>, ws: seq<seq<char>>) {
    forall h :: h != 0 ==> (Holds(slots, h) <==> h in seeds || exists w :: w in ws && Hash(w) == h)
  }

  /** Over a table holding exactly the seeds and the tokens `ws`, a registry
      slot is looked up by some held hash exactly when it is looked up by a
      seed or by one of `ws`. */
  lemma FoundExactly(arb: seq<Slot<ArbInfo>>, slots: seq<Slot<seq<char>>>, seeds: set<bv32>, ws: seq<seq<char>>,
                     p: nat)
    requires |arb| == TableSize && |slots| == TableSize && HoldsExactly(slots, seeds, ws)
    ensures (exists i :: 0 <= i < TableSize && Find(arb, slots[i].hash) == Some(p)) <==>
              (exists h :: h in seeds && Find(arb, h) == Some(p)) ||
              (exists w :: w in ws && Find(arb, Hash(w)) == Some(p))
  {
    if exists i :: 0 <= i < TableSize && Find(arb, slots[i].hash) == Some(p) {
      var i :| 0 <= i < TableSize && Find(arb, slots[i].hash) == Some(p);
      assert Holds(slots, slots[i].hash);
    }
    if exists h :: h in seeds && Find(arb, h) == Some(p) {
      var h :| h in seeds && Find(arb, h) == Some(p);
      assert Holds(slots, h);
    }
    if exists w :: w in ws && Find(arb, Hash(w)) == Some(p) {
      var w :| w in ws && Find(arb, Hash(w)) == Some(p);
      assert Holds(slots, Hash(w));
    }
  }

  /** From the seeded tables, unless the chosen table ends up full or its
      count passes the table end, emission over it sorted gives one line per
      registry slot that a seed or a resolved candidate of the inputs is
      looked up at, and no other. */
  lemma SeededEmitted(inputs: seq<Option<seq<char>>>, arb: seq<Slot<ArbInfo>>, ignores: seq<seq<char>>,
                      constants: bool, p: nat)
    requires |arb| == TableSize
    requires var f := Discovered(CollectAll(inputs, arb, ignores, Seeded().functions, Seeded().defines), constants);
             !Full(f.slots) && f.count <= TableSize
    ensures var f := Discovered(CollectAll(inputs, arb, ignores, Seeded().functions, Seeded().defines), constants);
            p in Emitted(arb, SortDesc(f.slots), f.count) <==>
              (exists h :: h in SeedsOf(constants) && Find(arb, h) == Some(p)) ||
              (exists w :: w in AllResolved(inputs, arb, ignores, constants) && Find(arb, Hash(w)) == Some(p))
  {
    var f := Discovered(CollectAll(inputs, arb, ignores, Seeded().functions, Seeded().defines), constants);
    var ws := AllResolved(inputs, arb, ignores, constants);
    SeededConsistent(inputs, arb, ignores);
    assert CountOccupied(f.slots) <= f.count;
    forall h | h != 0
      ensures Holds(f.slots, h) <==> h in SeedsOf(constants) || exists w :: w in ws && Hash(w) == h
    {
      SeededHolds(inputs, arb, ignores, constants, h);
    }
    DiscoveredEmitted(arb, f, p);
    FoundExactly(arb, f.slots, SeedsOf(constants), ws, p);
  }

  // ---------------------------------------------------------------------------
  // The run on the arrays.

  /** The seeding blocks: the constants table gets GL_MAJOR_VERSION and
      GL_MINOR_VERSION and its count 2, the functions table glGetIntegerv and
      its count 1. */
  method SeedTables(functions: Table<seq<char>>, defines: Table<seq<char>>)
    returns (functionCount: nat, definesCount: nat)
    requires functions.Valid() && defines.Valid() && functions.slots != defines.slots
    requires functions.slots[..] == EmptySlots() && defines.slots[..] == EmptySlots()
    modifies functions.slots, defines.slots
    ensures Collected(Found(functions.slots[..], functionCount), Found(defines.slots[..], definesCount), []) ==
            Seeded()
  {
    definesCount := 2;
    AddCustomToken(defines, MajorVersion);
    AddCustomToken(defines, MinorVersion);
    functionCount := 1;
    AddCustomToken(functions, GetIntegerv);
  }

  /** The loop over the input files: ParseFile on each, collecting the
      warnings. */
  method CollectInputs(inputs: seq<Option<seq<char>>>, arb: Table<ArbInfo>, ignores: seq<seq<char>>,
                       functions: Table<seq<char>>, functionCount: nat,
                       defines: Table<seq<char>>, definesCount: nat)
    returns (newFunctionCount: nat, newDefinesCount: nat, warnings: seq<seq<char>>)
    requires arb.Valid() && functions.Valid() && defines.Valid() && functions.slots != defines.slots
    modifies functions.slots, defines.slots
    ensures CollectAll(inputs, arb.slots[..], ignores, Found(old(functions.slots[..]), functionCount),
                       Found(old(defines.slots[..]), definesCount)) ==
            Collected(Found(functions.slots[..], newFunctionCount), Found(defines.slots[..], newDefinesCount), warnings)
  {
    ghost var f0, d0 := Found(functions.slots[..], functionCount), Found(defines.slots[..], definesCount);
    newFunctionCount, newDefinesCount, warnings := functionCount, definesCount, [];
    for index := 0 to |inputs|
      invariant CollectAll(inputs[..index], arb.slots[..], ignores, f0, d0) ==
                Collected(Found(functions.slots[..], newFunctionCount), Found(defines.slots[..], newDefinesCount), warnings)
    {
      assert inputs[..index + 1][..index] == inputs[..index];
      var read, fileWarnings;
      read, newFunctionCount, newDefinesCount, fileWarnings :=
        ParseFile(ReadEntire(inputs[index]), arb, functions, newFunctionCount, defines, newDefinesCount, ignores);
      warnings := warnings + fileWarnings;
    }
    assert inputs[..|inputs|] == inputs;
  }

  /** The two qsort calls. */
  method SortTables(functions: Table<seq<char>>, defines: Table<seq<char>>)
    requires functions.Valid() && defines.Valid() && functions.slots != defines.slots
    modifies functions.slots, defines.slots
    ensures functions.slots[..] == SortDesc(old(functions.slots[..]))
    ensures defines.slots[..] == SortDesc(old(defines.slots[..]))
  {
    QSort(functions);
    QSort(defines);
  }

  /** Sorting both tables, then writing the header, unless a count runs past
      the table end. */
  method Emission(s: Settings, b: Blocks, buf: seq<char>, arb: Table<ArbInfo>,
                  functions: Table<seq<char>>, functionCount: nat,
                  defines: Table<seq<char>>, definesCount: nat, warnings: seq<seq<char>>)
    returns (o: Outcome)
    requires arb.Valid() && functions.Valid() && defines.Valid() && functions.slots != defines.slots
    requires Fits(buf, arb.slots[..])
    modifies functions.slots, defines.slots
    ensures o == Finish(s, b, buf, arb.slots[..], Collected(Found(old(functions.slots[..]), functionCount),
                                                            Found(old(defines.slots[..]), definesCount), warnings))
  {
    SortTables(functions, defines);
    if functionCount > TableSize || definesCount > TableSize {
      return Overread;
    }
    var text := WriteHeader(b, PrefixOf(s), s.boilerplate, buf, arb, functions, functionCount, defines, definesCount);
    o := Written(text, warnings);
  }

  /** The body of GenerateOpenGLHeader once the registry text is read. */
  method IndexAndEmit(s: Settings, b: Blocks, data: seq<char>) returns (o: Outcome)
    requires Terminated(data)
    ensures o == FromData(s, Seeded(), b, data)
  {
    var arb, arbCount, crashed := BuildRegistry(data);
    if crashed {
      return NullWrite;
    }
    IndexRegistrySound(data);
    InvFits(data, Registry(arb.slots[..], arbCount));
    var functions := new Table<seq<char>>([]);
    var defines := new Table<seq<char>>([]);
    assert functions.slots[..] == EmptySlots() && defines.slots[..] == EmptySlots();
    var functionCount, definesCount := SeedTables(functions, defines);
    var warnings;
    functionCount, definesCount, warnings :=
      CollectInputs(s.inputs, arb, s.ignores, functions, functionCount, defines, definesCount);
    o := Emission(s, b, data, arb, functions, functionCount, defines, definesCount, warnings);
  }

  /** GenerateOpenGLHeader on the given settings. */
  method GenerateOpenGLHeader(s: Settings) returns (o: Outcome)
    ensures o == Generated(s)
  {
    var data := ReadMultiFiles(s.headers);
    if |s.inputs| == 0 || !s.outputOpens || data.None? {
      return Failed;
    }
    SplicedJoined(s.headers);
    o := IndexAndEmit(s, Fixed(PrefixOf(s), s.timestamp, s.loader), data.value);
  }
}

/**
 * debug_symbol_name_dbghelp and debug_symbol_name: starting the provider
 * session once, asking the provider for symbol and line, and falling back to
 * the containing module and finally to the bare pointer.
 */
module SymbolEngine {
  import opened Wrappers
  import opened Win32
  import opened ProviderLoader
  import opened DispatchShims
  import opened TextFormat

  /** The five shims' static pointers. */
  datatype Shims = Shims(
    symInitialize: Shim,
    symSetOptions: Shim,
    symFromAddr: Shim,
    symGetLine: Shim,
    symCleanup: Shim)

  /** All process-wide state of the lookup: `g_bSymInitialized`, the loader and the shims. */
  datatype Engine = Engine(initialized: bool, loader: Loader, shims: Shims)

  const Initial := Engine(false, ProviderLoader.Initial,
                          Shims(Unresolved, Unresolved, Unresolved, Unresolved, Unresolved))

  /** A provider call made while starting the session. */
  datatype InitStep = Cleanup | SetOptions(options: nat) | Initialize(invadeProcess: bool)

  datatype Session = Session(engine: Engine, steps: seq<InitStep>)

  /**
   * The session start at the top of every lookup. While the flag is clear,
   * each call cleans up first when the re-init option is set, then sets the
   * options and tries to initialise; the flag is set only when
   * initialisation reports success. Once the flag is set nothing runs.
   * Each call goes through its shim, so the shims end up holding what the
   * loaded provider exports, and a fresh loader is settled afterwards.
   */
  function InitSession(e: Engine, env: Env): (r: Session)
    ensures e.initialized ==> r == Session(e, [])
    ensures !e.initialized ==>
              r.steps == (if env.forceReinit then [Cleanup] else []) +
                         [SetOptions(SymOptLoadLines), Initialize(true)]
    ensures r.engine.initialized <==>
              e.initialized || (r.engine.shims.symInitialize.pfn.Some? && env.symInitialize)
    ensures r.engine.shims.symFromAddr == e.shims.symFromAddr
    ensures r.engine.shims.symGetLine == e.shims.symGetLine
    ensures !e.initialized ==>
              var l := r.engine.loader;
              && (l == e.loader || (!Settled(e.loader) && l == LoadedBy(env)))
              && (e.shims.symSetOptions.pfn.None? ==> Settled(l))
              && r.engine.shims.symSetOptions == AfterCall(e.shims.symSetOptions, l, env, "SymSetOptions")
              && r.engine.shims.symInitialize == AfterCall(e.shims.symInitialize, l, env, "SymInitialize")
              && r.engine.shims.symCleanup ==
                 (if env.forceReinit then AfterCall(e.shims.symCleanup, l, env, "SymCleanup")
                  else e.shims.symCleanup)
  {
    if e.initialized then Session(e, [])
    else
      var c := if env.forceReinit
               then Dispatch(e.shims.symCleanup, e.loader, env, "SymCleanup", false, true)
               else ShimCall(e.shims.symCleanup, e.loader, false, false, []);
      var o := Dispatch(e.shims.symSetOptions, c.loader, env, "SymSetOptions", 0, SymOptLoadLines);
      var i := Dispatch(e.shims.symInitialize, o.loader, env, "SymInitialize", false, env.symInitialize);
      DispatchThroughLoader(e.shims.symCleanup, e.loader, env, "SymCleanup", false, true);
      DispatchThroughLoader(e.shims.symSetOptions, c.loader, env, "SymSetOptions", 0, SymOptLoadLines);
      DispatchThroughLoader(e.shims.symInitialize, o.loader, env, "SymInitialize", false, env.symInitialize);
      var shims := e.shims.(symCleanup := c.shim, symSetOptions := o.shim, symInitialize := i.shim);
      Session(Engine(i.ret, i.loader, shims),
              (if env.forceReinit then [Cleanup] else []) +
              [SetOptions(SymOptLoadLines), Initialize(true)])
  }

  /** The four shapes of a description, most informative first. */
  datatype Resolution =
    | SymbolAndLine(name: string, line: LineInfo)        // "name at file:line"
    | SymbolOnly(name: string)                           // "name"
    | ModuleOffset(addr: Addr, moduleName: string, offset: nat)  // "addr at module+0xoff"
    | RawAddress(addr: Addr)                             // "addr"

  /** How informative a description is: 4 for symbol and line down to 1 for the bare pointer. */
  function Fidelity(res: Resolution): (f: nat)
    ensures 1 <= f <= 4
    ensures f == 1 <==> res.RawAddress?
  {
    match res
    case SymbolAndLine(_, _) => 4
    case SymbolOnly(_) => 3
    case ModuleOffset(_, _, _) => 2
    case RawAddress(_) => 1
  }

  /** The text the `snprintf` formats produce for each shape. */
  function Render(res: Resolution, env: Env): string
  {
    match res
    case SymbolAndLine(name, line) =>
      name + " at " + line.fileName + ":" + Numeral(line.lineNumber, 10)
    case SymbolOnly(name) => name
    case ModuleOffset(addr, moduleName, offset) =>
      env.pointerText(addr) + " at " + moduleName + "+0x" + Numeral(offset, 16)
    case RawAddress(addr) => env.pointerText(addr)
  }

  /**
   * The formats can be read back: a symbol or a raw pointer is the text
   * itself, and the digits that end a line or module form denote the line
   * number or the offset, after the fixed separators.
   */
  lemma RenderReadsBack(res: Resolution, env: Env)
    ensures res.SymbolOnly? ==> Render(res, env) == res.name
    ensures res.RawAddress? ==> Render(res, env) == env.pointerText(res.addr)
    ensures res.SymbolAndLine? ==>
              var r := Render(res, env);
              var digits := DigitSuffix(r, 10);
              && r == res.name + " at " + res.line.fileName + ":" + digits
              && NumeralValue(digits, 10) == res.line.lineNumber
    ensures res.ModuleOffset? ==>
              var r := Render(res, env);
              var digits := DigitSuffix(r, 16);
              && r == env.pointerText(res.addr) + " at " + res.moduleName + "+0x" + digits
              && NumeralValue(digits, 16) == res.offset
  {
    match res
    case SymbolAndLine(name, line) =>
      DigitSuffixOf(name + " at " + line.fileName + ":", Numeral(line.lineNumber, 10), 10);
      NumeralRoundTrip(line.lineNumber, 10);
    case ModuleOffset(addr, moduleName, offset) =>
      DigitSuffixOf(env.pointerText(addr) + " at " + moduleName + "+0x", Numeral(offset, 16), 16);
      NumeralRoundTrip(offset, 16);
    case _ =>
  }

  /**
   * The module level of the chain: the containing module and the offset
   * from its base, or failure when no module contains the address or its
   * file name does not fit the scratch buffer.
   */
  function ModuleFallback(env: Env, addr: Addr): (r: Option<Resolution>)
    ensures r.Some? <==> env.moduleOf(addr).Some? && |env.moduleOf(addr).value.fileName| < ScratchSize
    ensures r.Some? ==>
              var m := env.moduleOf(addr).value;
              && r.value.ModuleOffset? && r.value.addr == addr && r.value.moduleName == m.fileName
              && r.value.offset < ULongModulus
              && (m.base <= addr < m.base + ULongModulus ==> r.value.offset == addr - m.base)
  {
    match env.moduleOf(addr)
    case None => None
    case Some(m) =>
      // GetModuleFileNameA returns the buffer size exactly when the name was cut short
      if |m.fileName| >= ScratchSize then None
      else
        // the distance from the module base, wrapped to the pointer width and then to `unsigned long`
        var offset := ((addr - m.base) % PointerModulus) % ULongModulus;
        Some(ModuleOffset(addr, m.fileName, offset))
  }

  /** What one dbghelp lookup observably did. */
  datatype DbgHelpOutcome = DbgHelpOutcome(
    engine: Engine,
    steps: seq<InitStep>,
    symbol: Option<string>,       // the name SymFromAddr reported, if it ran and succeeded
    line: Option<LineInfo>,       // the line SymGetLineFromAddr64 reported, if it ran and succeeded
    resolution: Option<Resolution>)  // None: the function returns false

  /** debug_symbol_name_dbghelp, branch for branch. */
  function SymbolNameDbgHelp(e: Engine, env: Env, addr: Addr): (r: DbgHelpOutcome)
    ensures r.steps == InitSession(e, env).steps
    ensures r.engine.initialized == InitSession(e, env).engine.initialized
    ensures r.engine.loader == e.loader || (!Settled(e.loader) && r.engine.loader == LoadedBy(env))
    ensures var s := InitSession(e, env).engine.shims;
            && r.engine.shims.symInitialize == s.symInitialize
            && r.engine.shims.symSetOptions == s.symSetOptions
            && r.engine.shims.symCleanup == s.symCleanup
    ensures r.engine.shims.symFromAddr ==
              (if r.engine.initialized then AfterCall(e.shims.symFromAddr, r.engine.loader, env, "SymFromAddr")
               else e.shims.symFromAddr)
    ensures r.symbol == (if r.engine.initialized && r.engine.shims.symFromAddr.pfn.Some?
                         then env.symFromAddr(addr) else None)
    ensures r.engine.shims.symGetLine ==
              (if r.symbol.Some? then AfterCall(e.shims.symGetLine, r.engine.loader, env, "SymGetLineFromAddr64")
               else e.shims.symGetLine)
    ensures r.line == (if r.symbol.Some? && r.engine.shims.symGetLine.pfn.Some?
                       then env.symGetLine(addr) else None)
    ensures r.symbol.Some? && r.line.Some? ==>
              r.resolution == Some(SymbolAndLine(r.symbol.value, r.line.value))
    ensures r.symbol.Some? && r.line.None? ==> r.resolution == Some(SymbolOnly(r.symbol.value))
    ensures r.symbol.None? ==> r.line.None? && r.resolution == ModuleFallback(env, addr)
  {
    var s := InitSession(e, env);
    var e1 := s.engine;
    if !e1.initialized then
      DbgHelpOutcome(e1, s.steps, None, None, ModuleFallback(env, addr))
    else
      var f := Dispatch(e1.shims.symFromAddr, e1.loader, env, "SymFromAddr",
                        None, env.symFromAddr(addr));
      DispatchThroughLoader(e1.shims.symFromAddr, e1.loader, env, "SymFromAddr", None, env.symFromAddr(addr));
      var e2 := e1.(loader := f.loader, shims := e1.shims.(symFromAddr := f.shim));
      if f.ret.None? then
        DbgHelpOutcome(e2, s.steps, None, None, ModuleFallback(env, addr))
      else
        var g := Dispatch(e2.shims.symGetLine, e2.loader, env, "SymGetLineFromAddr64",
                          None, env.symGetLine(addr));
        DispatchThroughLoader(e2.shims.symGetLine, e2.loader, env, "SymGetLineFromAddr64", None, env.symGetLine(addr));
        var e3 := e2.(loader := g.loader, shims := e2.shims.(symGetLine := g.shim));
        var res := if g.ret.Some? then SymbolAndLine(f.ret.value, g.ret.value)
                   else SymbolOnly(f.ret.value);
        DbgHelpOutcome(e3, s.steps, f.ret, g.ret, Some(res))
  }

  /** What debug_symbol_name leaves behind. */
  datatype Named = Named(engine: Engine, buf: seq<char>, resolution: Resolution, lookup: DbgHelpOutcome)

  /**
   * debug_symbol_name: the dbghelp description when there is one, the bare
   * pointer otherwise; either way the buffer holds a terminated prefix of
   * the description, at most `size - 1` characters long. The caller must
   * pass `size >= 1`, because the last byte is written unconditionally on
   * the raw path.
   */
  function SymbolName(e: Engine, env: Env, addr: Addr, buf: seq<char>): (r: Named)
    requires |buf| >= 1
    ensures r.lookup == SymbolNameDbgHelp(e, env, addr) && r.engine == r.lookup.engine
    ensures r.lookup.resolution.Some? ==> r.resolution == r.lookup.resolution.value
    ensures r.lookup.resolution.None? ==> r.resolution == RawAddress(addr)
    ensures |r.buf| == |buf|
    ensures var text := Render(r.resolution, env);
            var n := Written(|buf|, text);
            n <= |buf| - 1 && r.buf[n] == Nul && r.buf[..n] == text[..n]
  {
    var d := SymbolNameDbgHelp(e, env, addr);
    if d.resolution.Some? then
      Named(d.engine, Snprintf(buf, Render(d.resolution.value, env)), d.resolution.value, d)
    else
      var written := Snprintf(buf, env.pointerText(addr));
      Named(d.engine, written[|buf| - 1 := Nul], RawAddress(addr), d)
  }

  /**
   * A description can be produced from what the lookup learned: the
   * provider's answers it received, the module containing the address, and
   * the address itself.
   */
  predicate Derivable(res: Resolution, env: Env, addr: Addr, symbol: Option<string>, line: Option<LineInfo>)
  {
    match res
    case SymbolAndLine(name, li) => symbol == Some(name) && line == Some(li)
    case SymbolOnly(name) => symbol == Some(name)
    case ModuleOffset(a, _, _) => a == addr && ModuleFallback(env, addr) == Some(res)
    case RawAddress(a) => a == addr
  }

  /**
   * The fallback chain picks the most informative description the lookup
   * could derive: no derivable description outranks the chosen one.
   */
  lemma {:induction false} ChainPicksMostInformative(e: Engine, env: Env, addr: Addr, buf: seq<char>)
    requires |buf| >= 1
    ensures var r := SymbolName(e, env, addr, buf);
            && Derivable(r.resolution, env, addr, r.lookup.symbol, r.lookup.line)
            && forall other :: Derivable(other, env, addr, r.lookup.symbol, r.lookup.line) ==>
                                 Fidelity(other) <= Fidelity(r.resolution)
  {
    var r := SymbolName(e, env, addr, buf);
    forall other | Derivable(other, env, addr, r.lookup.symbol, r.lookup.line)
      ensures Fidelity(other) <= Fidelity(r.resolution)
    {
      match other
      case SymbolAndLine(_, _) =>
      case SymbolOnly(_) =>
      case ModuleOffset(_, _, _) =>
      case RawAddress(_) =>
    }
  }

  /** No provider at all: the loader has bailed out and no shim was ever resolved. */
  predicate ProviderUnavailable(e: Engine)
  {
    && !e.initialized && e.loader == Loader(None, true)
    && e.shims == Shims(Unresolved, Unresolved, Unresolved, Unresolved, Unresolved)
  }

  /**
   * With the provider unavailable the output is the module form when a
   * module contains the address and its name fits, the bare pointer
   * otherwise; and the provider stays unavailable.
   */
  lemma ProviderUnavailableFallsBack(e: Engine, env: Env, addr: Addr, buf: seq<char>)
    requires ProviderUnavailable(e) && |buf| >= 1
    ensures var r := SymbolName(e, env, addr, buf);
            && ProviderUnavailable(r.engine)
            && r.resolution == ModuleFallback(env, addr).GetOr(RawAddress(addr))
  {
  }

  /**
   * With a provider that loads and exports the entry points, the first
   * lookup starts the session and the description is the provider's: symbol
   * and line when it knows both, the symbol alone when it knows no line,
   * and the module form only when it knows no symbol.
   */
  lemma ProviderAvailableIsUsed(env: Env, addr: Addr, h: Handle)
    requires LoadedBy(env).handle == Some(h)
    requires env.procAddress(h, "SymSetOptions").Some? && env.procAddress(h, "SymInitialize").Some?
    requires env.procAddress(h, "SymFromAddr").Some? && env.procAddress(h, "SymGetLineFromAddr64").Some?
    requires env.symInitialize
    ensures var r := SymbolNameDbgHelp(Initial, env, addr);
            var symbol, line := env.symFromAddr(addr), env.symGetLine(addr);
            && r.engine.initialized && r.engine.loader == LoadedBy(env)
            && r.symbol == symbol
            && (symbol.Some? && line.Some? ==> r.resolution == Some(SymbolAndLine(symbol.value, line.value)))
            && (symbol.Some? && line.None? ==> r.resolution == Some(SymbolOnly(symbol.value)))
            && (symbol.None? ==> r.resolution == ModuleFallback(env, addr))
  {
  }

  /**
   * An address 0x500 bytes into a module loaded at 0x1000, with no
   * provider, is described as the pointer followed by the module and
   * `+0x500`.
   */
  lemma ModuleOffsetExample(e: Engine, env: Env, moduleName: string)
    requires ProviderUnavailable(e)
    requires |moduleName| < ScratchSize
    requires env.moduleOf(0x1500) == Some(ModuleInfo(0x1000, moduleName))
    ensures Render(SymbolName(e, env, 0x1500, seq(1024, _ => Nul)).resolution, env) ==
            env.pointerText(0x1500) + " at " + moduleName + "+0x500"
  {
    ProviderUnavailableFallsBack(e, env, 0x1500, seq(1024, _ => Nul));
    assert Numeral(0x500, 16) == "500";
  }

  /** An address outside every module, with no provider, is printed as the bare pointer. */
  lemma RawAddressExample(e: Engine, env: Env)
    requires ProviderUnavailable(e)
    requires env.moduleOf(0xDEADBEEF).None?
    ensures Render(SymbolName(e, env, 0xDEADBEEF, seq(1024, _ => Nul)).resolution, env) ==
            env.pointerText(0xDEADBEEF)
  {
    ProviderUnavailableFallsBack(e, env, 0xDEADBEEF, seq(1024, _ => Nul));
  }

  /** Runs lookups one after another, collecting the session steps each made. */
  function RunLookups(e: Engine, envs: seq<Env>, addr: Addr): (r: (Engine, seq<seq<InitStep>>))
    ensures |r.1| == |envs|
    decreases |envs|
  {
    if |envs| == 0 then (e, [])
    else
      var first := SymbolNameDbgHelp(e, envs[0], addr);
      var rest := RunLookups(first.engine, envs[1..], addr);
      (rest.0, [first.steps] + rest.1)
  }

  /**
   * Session start happens at most once: once the flag is set, no later
   * lookup cleans up, sets options or initialises again, and the flag stays
   * set.
   */
  lemma {:induction false} SessionStartsOnce(e: Engine, envs: seq<Env>, addr: Addr)
    requires e.initialized
    ensures RunLookups(e, envs, addr).0.initialized
    ensures forall i :: 0 <= i < |envs| ==> RunLookups(e, envs, addr).1[i] == []
    decreases |envs|
  {
    if |envs| > 0 {
      var first := SymbolNameDbgHelp(e, envs[0], addr);
      SessionStartsOnce(first.engine, envs[1..], addr);
    }
  }
}

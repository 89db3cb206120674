/**
 * getDbgHelpProcAddress: finds the symbol-information provider library on
 * first use, remembers its handle for the life of the process, and gives up
 * for good once no candidate library can be loaded.
 */
module ProviderLoader {
  import opened Wrappers
  import opened Win32

  /** The two function-local statics: the library handle and the bail flag. */
  datatype Loader = Loader(handle: Option<Handle>, bail: bool)

  /** Process start: nothing loaded, not bailed out. */
  const Initial := Loader(None, false)

  /** The MinGW-aware look-alike of DbgHelp, tried first by GCC builds. */
  const MgwHelp := "mgwhelp.dll"

  /** The platform's own provider. */
  const DbgHelp := "dbghelp.dll"

  /** The libraries a build is willing to load, in order of preference. */
  function Candidates(gccBuild: bool): (names: seq<string>)
    ensures |names| >= 1 && names[|names| - 1] == DbgHelp
    ensures gccBuild <==> |names| == 2
  {
    if gccBuild then [MgwHelp, DbgHelp] else [DbgHelp]
  }

  /** Reference search: the handle of the first library of `names` that loads. */
  function FirstLoadable(env: Env, names: seq<string>): Option<Handle>
  {
    if |names| == 0 then None
    else if env.loadLibrary(names[0]).Some? then env.loadLibrary(names[0])
    else FirstLoadable(env, names[1..])
  }

  /** Reference search: the libraries tried, in order, up to and including the first that loads. */
  function TriedUntilLoaded(env: Env, names: seq<string>): seq<string>
  {
    if |names| == 0 then []
    else if env.loadLibrary(names[0]).Some? then [names[0]]
    else [names[0]] + TriedUntilLoaded(env, names[1..])
  }

  /** What one call observably did. */
  datatype Lookup = Lookup(
    loader: Loader,          // the statics afterwards
    proc: Option<Proc>,      // the returned entry point
    attempts: seq<string>,   // the `LoadLibraryA` calls made, in order
    warned: bool)            // the "mgwhelp.dll not found" warning was printed

  /**
   * One call of getDbgHelpProcAddress(name), branch for branch. A loaded
   * library is never loaded again; a bailed loader never tries again; a
   * fresh loader tries the candidates in order, stops at the first that
   * loads, and bails when none does.
   */
  function GetProcAddress(l: Loader, env: Env, name: string): (r: Lookup)
    ensures l.handle.Some? ==>
              r.loader == l && r.attempts == [] && !r.warned &&
              r.proc == env.procAddress(l.handle.value, name)
    ensures l.handle.None? && l.bail ==> r == Lookup(l, None, [], false)
    ensures l.handle.None? && !l.bail ==>
              && r.attempts == TriedUntilLoaded(env, Candidates(env.gccBuild))
              && r.loader.handle == FirstLoadable(env, Candidates(env.gccBuild))
              && (r.loader.bail <==> r.loader.handle.None?)
              && r.proc == (if r.loader.handle.Some? then env.procAddress(r.loader.handle.value, name) else None)
              && (r.warned <==> env.gccBuild && env.loadLibrary(MgwHelp).None?)
  {
    if l.handle.Some? then
      Lookup(l, env.procAddress(l.handle.value, name), [], false)
    else if l.bail then
      Lookup(l, None, [], false)
    else
      UnfoldCandidates(env);
      // the GCC build tries the MinGW helper first and warns when it is missing
      var h0 := if env.gccBuild then env.loadLibrary(MgwHelp) else None;
      var tried0 := if env.gccBuild then [MgwHelp] else [];
      var warned := env.gccBuild && h0.None?;
      // then falls back to the real DbgHelp
      var h1 := if h0.None? then env.loadLibrary(DbgHelp) else h0;
      var tried1 := if h0.None? then tried0 + [DbgHelp] else tried0;
      if h1.None? then
        Lookup(Loader(None, true), None, tried1, warned)
      else
        Lookup(Loader(h1, false), env.procAddress(h1.value, name), tried1, warned)
  }

  /** The reference searches spelled out on the two candidate lists. */
  lemma UnfoldCandidates(env: Env)
    ensures !env.gccBuild ==>
              && TriedUntilLoaded(env, Candidates(false)) == [DbgHelp]
              && FirstLoadable(env, Candidates(false)) == env.loadLibrary(DbgHelp)
    ensures env.gccBuild ==>
              && TriedUntilLoaded(env, Candidates(true)) ==
                 (if env.loadLibrary(MgwHelp).Some? then [MgwHelp] else [MgwHelp, DbgHelp])
              && FirstLoadable(env, Candidates(true)) ==
                 (if env.loadLibrary(MgwHelp).Some? then env.loadLibrary(MgwHelp)
                  else env.loadLibrary(DbgHelp))
  {
    assert [DbgHelp][1..] == [];
    assert [MgwHelp, DbgHelp][1..] == [DbgHelp];
    assert TriedUntilLoaded(env, [DbgHelp]) == [DbgHelp];
    assert FirstLoadable(env, [DbgHelp]) == env.loadLibrary(DbgHelp);
  }

  /** One call of a sequence: the environment it sees and the entry point it asks for. */
  datatype Call = Call(env: Env, name: string)

  /** Runs calls one after another, collecting every library load they attempt. */
  function RunCalls(l: Loader, calls: seq<Call>): (r: (Loader, seq<string>))
    decreases |calls|
  {
    if |calls| == 0 then (l, [])
    else
      var first := GetProcAddress(l, calls[0].env, calls[0].name);
      var rest := RunCalls(first.loader, calls[1..]);
      (rest.0, first.attempts + rest.1)
  }

  /** Settled: a library is loaded or the loader has bailed out. */
  predicate Settled(l: Loader) {
    l.handle.Some? || l.bail
  }

  /** The statics a fresh loader settles into: the first candidate that loads, or bailed out. */
  function LoadedBy(env: Env): Loader
  {
    var h := FirstLoadable(env, Candidates(env.gccBuild));
    Loader(h, h.None?)
  }

  /**
   * A settled loader never loads anything again: whatever calls follow,
   * no library load is attempted and the statics do not change.
   */
  lemma {:induction false} SettledNeverLoads(l: Loader, calls: seq<Call>)
    requires Settled(l)
    ensures RunCalls(l, calls) == (l, [])
  {
    if |calls| > 0 {
      var first := GetProcAddress(l, calls[0].env, calls[0].name);
      assert first.loader == l && first.attempts == [];
      SettledNeverLoads(l, calls[1..]);
      var rest := RunCalls(l, calls[1..]);
      assert RunCalls(l, calls) == (rest.0, first.attempts + rest.1);
      assert first.attempts + rest.1 == [];
    }
  }

  /**
   * Once the bail flag is set, every later call returns "not found"
   * without attempting a load.
   */
  lemma {:induction false} BailIsPermanent(l: Loader, calls: seq<Call>, i: nat)
    requires l.handle.None? && l.bail
    requires i < |calls|
    ensures GetProcAddress(RunCalls(l, calls[..i]).0, calls[i].env, calls[i].name).proc.None?
    ensures RunCalls(l, calls).1 == []
  {
    SettledNeverLoads(l, calls[..i]);
    SettledNeverLoads(l, calls);
  }

  /**
   * Over the whole life of the process the loader attempts at most one
   * round of loads: everything it ever tries is what the first call tried,
   * which is a prefix of the candidate list.
   */
  lemma {:induction false} AtMostOneLoadingRound(calls: seq<Call>)
    requires |calls| > 0
    ensures RunCalls(Initial, calls).1 == TriedUntilLoaded(calls[0].env, Candidates(calls[0].env.gccBuild))
    ensures |RunCalls(Initial, calls).1| <= |Candidates(calls[0].env.gccBuild)|
  {
    var first := GetProcAddress(Initial, calls[0].env, calls[0].name);
    assert Settled(first.loader);
    SettledNeverLoads(first.loader, calls[1..]);
    TriedIsBounded(calls[0].env, Candidates(calls[0].env.gccBuild));
  }

  /** The reference search never tries more libraries than it is given. */
  lemma {:induction false} TriedIsBounded(env: Env, names: seq<string>)
    ensures |TriedUntilLoaded(env, names)| <= |names|
    ensures |TriedUntilLoaded(env, names)| > 0 ==>
              (FirstLoadable(env, names).Some? <==>
               env.loadLibrary(TriedUntilLoaded(env, names)[|TriedUntilLoaded(env, names)| - 1]).Some?)
  {
    if |names| > 0 && env.loadLibrary(names[0]).None? {
      TriedIsBounded(env, names[1..]);
    }
  }
}

/**
 * The DBGHELP_DISPATCH pattern: one forwarding entry point per provider
 * function, each holding a function-local static pointer that is resolved
 * through the loader on first use.
 */
module DispatchShims {
  import opened Wrappers
  import opened Win32
  import opened ProviderLoader

  /** The shim's static `pfn`; `None` is the NULL pointer. */
  datatype Shim = Shim(pfn: Option<Proc>)

  const Unresolved := Shim(None)

  /** What one shim call observably did. */
  datatype ShimCall<R> = ShimCall(
    shim: Shim,              // the static pointer afterwards
    loader: Loader,          // the loader statics afterwards
    ret: R,                  // the value handed back to the caller
    invoked: bool,           // the provider function actually ran
    attempts: seq<string>)   // library loads made while resolving

  /**
   * One call of a shim `j_<name>`. `answer` is what the provider function
   * returns when it runs; `default` is the shim's declared fallback. A stored
   * pointer is reused without asking the loader; a failed resolution stores
   * nothing, so the next call asks again.
   */
  function Dispatch<R>(s: Shim, l: Loader, env: Env, name: string, default: R, answer: R): (r: ShimCall<R>)
    ensures r.invoked <==> r.shim.pfn.Some?
    ensures r.ret == (if r.invoked then answer else default)
    ensures s.pfn.Some? ==> r.shim == s && r.loader == l && r.attempts == []
    ensures s.pfn.None? ==>
              var lookup := GetProcAddress(l, env, name);
              r.shim.pfn == lookup.proc && r.loader == lookup.loader && r.attempts == lookup.attempts
  {
    if s.pfn.Some? then
      ShimCall(s, l, answer, true, [])
    else
      var lookup := GetProcAddress(l, env, name);
      if lookup.proc.None? then
        ShimCall(s, lookup.loader, default, false, lookup.attempts)
      else
        ShimCall(Shim(lookup.proc), lookup.loader, answer, true, lookup.attempts)
  }

  /**
   * The pointer a shim holds after one call, given the loader statics after
   * it: a stored pointer stays; otherwise it is what the loaded library
   * exports under the name, and NULL when no library is loaded.
   */
  function AfterCall(s: Shim, l: Loader, env: Env, name: string): Shim
  {
    if s.pfn.Some? then s
    else if l.handle.Some? then Shim(env.procAddress(l.handle.value, name))
    else Unresolved
  }

  /**
   * A call resolves through the loader: the shim ends as `AfterCall` says,
   * a settled loader is left alone, a fresh one is consulted only when the
   * shim is unresolved and then settles into `LoadedBy`.
   */
  lemma DispatchThroughLoader<R>(s: Shim, l: Loader, env: Env, name: string, default: R, answer: R)
    ensures var d := Dispatch(s, l, env, name, default, answer);
            && d.shim == AfterCall(s, d.loader, env, name)
            && (Settled(l) || s.pfn.Some? ==> d.loader == l)
            && (!Settled(l) && s.pfn.None? ==> d.loader == LoadedBy(env))
  {
  }

  /**
   * Runs a shim once per environment, collecting whether the provider ran
   * each time. The shim ends up resolved exactly when it started resolved
   * or some call reached the provider, and once a call has reached the
   * provider every later call does too.
   */
  function RunShim(s: Shim, l: Loader, envs: seq<Env>, name: string): (r: (Shim, Loader, seq<bool>))
    ensures |r.2| == |envs|
    ensures r.0.pfn.Some? <==> s.pfn.Some? || true in r.2
    ensures s.pfn.Some? ==> forall i :: 0 <= i < |r.2| ==> r.2[i]
    ensures forall i, j :: 0 <= i <= j < |r.2| && r.2[i] ==> r.2[j]
    decreases |envs|
  {
    if |envs| == 0 then (s, l, [])
    else
      var first := Dispatch(s, l, envs[0], name, false, true);
      var rest := RunShim(first.shim, first.loader, envs[1..], name);
      (rest.0, rest.1, [first.invoked] + rest.2)
  }

  /**
   * A resolved shim is never re-resolved: every later call forwards to the
   * stored pointer, and neither the pointer nor the loader changes.
   */
  lemma {:induction false} ResolvedStaysResolved(s: Shim, l: Loader, envs: seq<Env>, name: string)
    requires s.pfn.Some?
    ensures RunShim(s, l, envs, name).0 == s
    ensures RunShim(s, l, envs, name).1 == l
    ensures forall i :: 0 <= i < |envs| ==> RunShim(s, l, envs, name).2[i]
  {
    if |envs| > 0 {
      ResolvedStaysResolved(s, l, envs[1..], name);
      var rest := RunShim(s, l, envs[1..], name);
      assert RunShim(s, l, envs, name).2 == [true] + rest.2;
    }
  }

  /**
   * A shim whose first call cannot resolve its entry point returns the
   * default and stays unresolved; the next call asks the loader again and
   * forwards exactly when that lookup finds the entry point, so resolution
   * is retried rather than remembered as a failure.
   */
  lemma FailedResolutionIsRetried(l: Loader, env1: Env, env2: Env, name: string)
    requires GetProcAddress(l, env1, name).proc.None?
    ensures var first := Dispatch(Unresolved, l, env1, name, false, true);
            var second := Dispatch(first.shim, first.loader, env2, name, false, true);
            && !first.ret && first.shim == Unresolved && first.loader == GetProcAddress(l, env1, name).loader
            && second.shim.pfn == GetProcAddress(first.loader, env2, name).proc
            && second.attempts == GetProcAddress(first.loader, env2, name).attempts
            && (second.ret <==> second.shim.pfn.Some?)
  {
  }
}

/**
 * debug_symbol_name_cached: a table from address to description, created on
 * first use, filled on a miss and never changed or emptied afterwards.
 */
module SymbolCache {
  import opened Wrappers
  import opened Win32
  import opened TextFormat
  import opened SymbolEngine

  /** The static `symbols_hash`; `None` before the table is created. */
  datatype Cache = Cache(table: Option<map<Addr, string>>)

  const Initial := Cache(None)

  /** `char buf[1024]` on the miss path. */
  const NameBufferSize: nat := 1024

  /** The entries of a cache, empty before the table exists. */
  function Entries(c: Cache): map<Addr, string>
  {
    c.table.GetOr(map[])
  }

  /** What one cached lookup observably did. */
  datatype Cached = Cached(cache: Cache, engine: Engine, name: string, computed: bool)

  /** The first terminator of a buffer bounds its C string. */
  lemma CStringBefore(b: seq<char>, n: nat)
    requires n < |b| && b[n] == Nul
    ensures |CString(b)| <= n
  {
  }

  /**
   * One call of debug_symbol_name_cached. `scratch` is the uninitialised
   * stack buffer of the miss path. A hit returns the stored string and
   * changes nothing; a miss describes the address, copies the C string out
   * of the buffer and inserts it, leaving every other entry as it was.
   */
  function NameCached(c: Cache, e: Engine, env: Env, addr: Addr, scratch: seq<char>): (r: Cached)
    requires |scratch| == NameBufferSize
    ensures r.cache.table.Some?
    ensures addr in Entries(r.cache) && Entries(r.cache)[addr] == r.name
    ensures Entries(c).Keys <= Entries(r.cache).Keys
    ensures forall a :: a in Entries(c) ==> Entries(r.cache)[a] == Entries(c)[a]
    ensures addr in Entries(c) ==> c.table.Some? && r == Cached(c, e, Entries(c)[addr], false)
    ensures addr !in Entries(c) ==>
              var named := SymbolName(e, env, addr, scratch);
              && r.computed && r.engine == named.engine
              && r.name == CString(named.buf) && |r.name| < NameBufferSize
              && Entries(r.cache) == Entries(c)[addr := r.name]
  {
    // the table is created lazily, under the lock, on the first call
    var table := if c.table.None? then map[] else c.table.value;
    if addr in table then
      Cached(Cache(Some(table)), e, table[addr], false)
    else
      var named := SymbolName(e, env, addr, scratch);
      var name := CString(named.buf);
      var n := Written(NameBufferSize, Render(named.resolution, env));
      CStringBefore(named.buf, n);
      Cached(Cache(Some(table[addr := name])), named.engine, name, true)
  }

  /** One cached lookup of a sequence: its environment, address and stack buffer. */
  datatype Request = Request(env: Env, addr: Addr, scratch: seq<char>)

  predicate WellSized(reqs: seq<Request>)
  {
    forall i :: 0 <= i < |reqs| ==> |reqs[i].scratch| == NameBufferSize
  }

  /** What a sequence of cached lookups returned. */
  datatype Run = Run(cache: Cache, engine: Engine, names: seq<string>, computed: seq<bool>)

  function RunCached(c: Cache, e: Engine, reqs: seq<Request>): (r: Run)
    requires WellSized(reqs)
    ensures |r.names| == |reqs| && |r.computed| == |reqs|
    decreases |reqs|
  {
    if |reqs| == 0 then Run(c, e, [], [])
    else
      var first := NameCached(c, e, reqs[0].env, reqs[0].addr, reqs[0].scratch);
      var rest := RunCached(first.cache, first.engine, reqs[1..]);
      Run(rest.cache, rest.engine, [first.name] + rest.names, [first.computed] + rest.computed)
  }

  /**
   * Over any sequence of cached lookups the table only grows: entries are
   * never changed or removed, and every looked-up address ends up stored
   * with the string its lookup returned.
   */
  lemma {:induction false} CacheOnlyGrows(c: Cache, e: Engine, reqs: seq<Request>)
    requires WellSized(reqs)
    ensures var r := RunCached(c, e, reqs);
            && Entries(c).Keys <= Entries(r.cache).Keys
            && (forall a :: a in Entries(c) ==> Entries(r.cache)[a] == Entries(c)[a])
            && (forall i :: 0 <= i < |reqs| ==>
                  reqs[i].addr in Entries(r.cache) && Entries(r.cache)[reqs[i].addr] == r.names[i])
    decreases |reqs|
  {
    var r := RunCached(c, e, reqs);
    if |reqs| > 0 {
      var first := NameCached(c, e, reqs[0].env, reqs[0].addr, reqs[0].scratch);
      var tail := TailIsWellSized(reqs);
      CacheOnlyGrows(first.cache, first.engine, tail);
      var rest := RunCached(first.cache, first.engine, tail);
      assert r.names == [first.name] + rest.names;
      forall i | 0 <= i < |reqs|
        ensures reqs[i].addr in Entries(r.cache) && Entries(r.cache)[reqs[i].addr] == r.names[i]
      {
        if i > 0 { assert reqs[i] == tail[i - 1]; }
      }
    }
  }

  /**
   * Over any sequence of cached lookups, an address already stored is
   * returned as stored, without computation.
   */
  lemma CacheHitsAreReturned(c: Cache, e: Engine, reqs: seq<Request>)
    requires WellSized(reqs)
    ensures var r := RunCached(c, e, reqs);
            forall i :: 0 <= i < |reqs| && reqs[i].addr in Entries(c) ==>
              r.names[i] == Entries(c)[reqs[i].addr] && !r.computed[i]
  {
    var r := RunCached(c, e, reqs);
    forall i | 0 <= i < |reqs| && reqs[i].addr in Entries(c)
      ensures r.names[i] == Entries(c)[reqs[i].addr] && !r.computed[i]
    {
      HitAt(c, e, reqs, i);
    }
  }

  /** The `i`-th lookup of a run finds its address if it was stored before the run. */
  lemma {:induction false} HitAt(c: Cache, e: Engine, reqs: seq<Request>, i: nat)
    requires WellSized(reqs) && i < |reqs| && reqs[i].addr in Entries(c)
    ensures RunCached(c, e, reqs).names[i] == Entries(c)[reqs[i].addr]
    ensures !RunCached(c, e, reqs).computed[i]
    decreases i
  {
    if i > 0 {
      var first, tail := RunCachedAt(c, e, reqs, i);
      HitAt(first.cache, first.engine, tail, i - 1);
    }
  }

  /**
   * Past the first request, a run continues as the run of the remaining
   * requests from the state the first lookup left.
   */
  lemma RunCachedAt(c: Cache, e: Engine, reqs: seq<Request>, k: nat) returns (first: Cached, tail: seq<Request>)
    requires WellSized(reqs) && 0 < k < |reqs|
    ensures first == NameCached(c, e, reqs[0].env, reqs[0].addr, reqs[0].scratch)
    ensures tail == reqs[1..] && WellSized(tail) && tail[k - 1] == reqs[k]
    ensures Entries(c).Keys <= Entries(first.cache).Keys
    ensures forall a :: a in Entries(c) ==> Entries(first.cache)[a] == Entries(c)[a]
    ensures reqs[0].addr in Entries(first.cache)
    ensures RunCached(c, e, reqs).names[0] == first.name == Entries(first.cache)[reqs[0].addr]
    ensures RunCached(c, e, reqs).names[k] == RunCached(first.cache, first.engine, tail).names[k - 1]
    ensures RunCached(c, e, reqs).computed[k] == RunCached(first.cache, first.engine, tail).computed[k - 1]
  {
    first := NameCached(c, e, reqs[0].env, reqs[0].addr, reqs[0].scratch);
    tail := TailIsWellSized(reqs);
  }

  /**
   * Over any sequence of cached lookups, a later lookup of an address
   * returns exactly what the earlier one did, without computing it again.
   */
  lemma CacheIsStable(c: Cache, e: Engine, reqs: seq<Request>)
    requires WellSized(reqs)
    ensures var r := RunCached(c, e, reqs);
            forall i, j :: 0 <= i < j < |reqs| && reqs[i].addr == reqs[j].addr ==>
              r.names[j] == r.names[i] && !r.computed[j]
  {
    var r := RunCached(c, e, reqs);
    forall i, j | 0 <= i < j < |reqs| && reqs[i].addr == reqs[j].addr
      ensures r.names[j] == r.names[i] && !r.computed[j]
    {
      RepeatAt(c, e, reqs, i, j);
    }
  }

  /** The `j`-th lookup of a run repeats the `i`-th when both name the same address. */
  lemma {:induction false} RepeatAt(c: Cache, e: Engine, reqs: seq<Request>, i: nat, j: nat)
    requires WellSized(reqs) && i < j < |reqs| && reqs[i].addr == reqs[j].addr
    ensures RunCached(c, e, reqs).names[j] == RunCached(c, e, reqs).names[i]
    ensures !RunCached(c, e, reqs).computed[j]
    decreases i
  {
    var first, tail := RunCachedAt(c, e, reqs, j);
    if i > 0 {
      var _, _ := RunCachedAt(c, e, reqs, i);
      RepeatAt(first.cache, first.engine, tail, i - 1, j - 1);
    } else {
      HitAt(first.cache, first.engine, tail, j - 1);
    }
  }

  /** The requests after the first are as well sized as the whole. */
  lemma TailIsWellSized(reqs: seq<Request>) returns (tail: seq<Request>)
    requires |reqs| > 0 && WellSized(reqs)
    ensures tail == reqs[1..] && WellSized(tail)
  {
    tail := reqs[1..];
    forall k | 0 <= k < |tail| ensures |tail[k].scratch| == NameBufferSize {
      assert tail[k] == reqs[k + 1];
    }
  }

  /**
   * Starting from the empty cache, the first lookup of an address computes
   * its description and stores it.
   */
  lemma FirstLookupComputes(e: Engine, env: Env, addr: Addr, scratch: seq<char>)
    requires |scratch| == NameBufferSize
    ensures var r := NameCached(Initial, e, env, addr, scratch);
            && r.computed && Entries(r.cache).Keys == {addr}
  {
  }
}

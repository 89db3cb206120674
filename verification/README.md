# Symbol lookup and ACO liveness, modelled in Dafny

This project models two sequential pieces of Mesa:

- **Symbol lookup** (`mesalib/src/util/u_debug_symbol.c`). It turns an
  in-process address into a description for diagnostics. The parts are:
  - the loader that finds the DbgHelp-style provider library once and bails
    out for good when none loads (`ProviderLoader`);
  - the `DBGHELP_DISPATCH` shims that resolve one provider entry point each
    on first use (`DispatchShims`);
  - the session start and the four-level fallback chain `name at file:line`,
    `name`, `addr at module+0xoff`, `addr` (`SymbolEngine`);
  - the address-to-string memo table of `debug_symbol_name_cached`
    (`SymbolCache`);
  - the C string handling they need: `%lx`/`%lu` numerals, C99 `snprintf`
    into a fixed buffer, `strdup` of a NUL-terminated buffer (`TextFormat`).
  Every Windows and DbgHelp call is an oracle field of `Win32.Env`. Each
  operation takes an `Env`, and nothing assumes two calls see the same one.
- **ACO register demand and liveness**
  (`mesalib/src/amd/compiler/aco_live_var_analysis.cpp`):
  - the SGPR/VGPR allocation and occupancy arithmetic, with `uint16_t`
    truncation written out (`RegisterDemand`, over the helpers in `Arith`);
  - the liveness equations on sets of temporaries (`LiveSets`);
  - the kill flags one instruction gets during the backward walk (`KillFlags`);
  - `process_live_temps_per_block` and the `live_var_analysis` worklist
    (`LiveAnalysis`).
  `LiveAnalysis.LiveVarAnalysis` is proved to terminate. It returns the
  least assignment of live-out sets that meets every block's needs, or the
  abort exactly when no such assignment leaves the first block without
  live-ins.

The state of both halves lives in immutable datatypes: loader and shim
statics, the session flag, the memo table, the live-out sets, the worklist.
Each call returns the new state together with what it observably did.

Three behaviours of the code are worth stating on their own:
- A shim whose entry point cannot be found stores nothing and asks the loader
  again on its next call. It does not remember the failure
  (`DispatchShims.FailedResolutionIsRetried`).
- The session flag is a plain boolean, and there is no terminal "failed"
  state. While it is clear, every lookup sets the options and tries to
  initialise again, cleaning up first when `GALLIUM_SYMBOL_FORCE_REINIT` is
  set (`SymbolEngine.InitSession`).
- Nothing guarantees a non-empty description. The raw form is whatever `%p`
  prints, and a one-byte buffer holds only the terminator. What the code
  guarantees, and the model proves, is a terminated prefix of at most
  `size - 1` characters (`SymbolEngine.SymbolName`).

## Model

| member | source | states |
|---|---|---|
| ProviderLoader.Candidates | mesalib/src/util/u_debug_symbol.c:76-97 | GCC builds try `mgwhelp.dll` and then `dbghelp.dll`; other builds try only `dbghelp.dll`, which is always the last candidate |
| ProviderLoader.GetProcAddress | mesalib/src/util/u_debug_symbol.c:64-106 | a loaded handle is used without loading anything; a bailed loader returns NULL without loading; a fresh loader tries the candidates in order up to the first that loads, keeps that handle and returns its entry point, bails and returns NULL exactly when none loads, and warns exactly when a GCC build misses `mgwhelp.dll` |
| ProviderLoader.SettledNeverLoads | mesalib/src/util/u_debug_symbol.c:67-103 | once a library is loaded or the loader has bailed, no later sequence of calls loads any library or changes the statics |
| ProviderLoader.BailIsPermanent | mesalib/src/util/u_debug_symbol.c:70-102 | after the bail flag is set, every later call returns "not found" and no load is attempted |
| ProviderLoader.AtMostOneLoadingRound | mesalib/src/util/u_debug_symbol.c:64-106 | over the life of the process, the only library loads are those of the first call: the candidates up to the first that loads, never more than the list holds |
| ProviderLoader.TriedIsBounded | mesalib/src/util/u_debug_symbol.c:83-102 | the in-order search never tries more libraries than it is given, and it finds a library exactly when the last one it tried loaded |
| DispatchShims.Dispatch | mesalib/src/util/u_debug_symbol.c:112-125 | a stored pointer is used without asking the loader; otherwise the loader's answer is stored; the provider function runs exactly when the pointer is non-null, and the declared default is returned otherwise |
| DispatchShims.DispatchThroughLoader | mesalib/src/util/u_debug_symbol.c:117-124 | a shim call leaves a stored pointer alone and otherwise stores what the loaded library exports under the name (NULL when none is loaded); a settled loader is untouched, and a fresh one is consulted only by an unresolved shim and then settles on the first candidate that loads |
| DispatchShims.RunShim | mesalib/src/util/u_debug_symbol.c:117-124 | over repeated calls the shim ends up resolved exactly when it started resolved or some call reached the provider; a resolved shim reaches the provider on every call, and once one call reaches it so does every later call |
| DispatchShims.ResolvedStaysResolved | mesalib/src/util/u_debug_symbol.c:117-124 | a resolved shim keeps its pointer and the loader state over any number of calls, and the provider runs on each of them |
| DispatchShims.FailedResolutionIsRetried | mesalib/src/util/u_debug_symbol.c:118-122 | a failed resolution returns the default and leaves the shim unresolved; the next call asks the loader again, stores what that lookup returns, and forwards exactly when it finds the entry point |
| TextFormat.Numeral | mesalib/src/util/u_debug_symbol.c:209-211 | the `%lx`/`%lu` rendering is a non-empty string of digits of the base without leading zeros |
| TextFormat.NumeralRoundTrip | mesalib/src/util/u_debug_symbol.c:209-211 | reading a rendered numeral back in its base gives the printed number |
| TextFormat.Snprintf | mesalib/src/util/u_debug_symbol.c:226-228 | `snprintf` stores the text cut to `size - 1` characters and a terminator, and leaves the rest of the buffer untouched; a zero-size buffer is not written |
| TextFormat.CString | mesalib/src/util/u_debug_symbol.c:274 | the C string of a buffer is its prefix before the first NUL: NUL-free, and followed by a NUL when shorter than the buffer |
| TextFormat.SnprintfThenCString | mesalib/src/util/u_debug_symbol.c:272-274 | `strdup` of the `snprintf` buffer yields the text cut to the capacity, and exactly that cut when the text holds no NUL |
| SymbolEngine.InitSession | mesalib/src/util/u_debug_symbol.c:176-189 | with the flag set nothing runs; with it clear the steps are cleanup (when forced), set options to `SYMOPT_LOAD_LINES`, initialise with invade, each through its shim, so every dispatched shim ends up holding what the loaded provider exports and a fresh loader is settled afterwards; the flag becomes set exactly when initialisation resolves and succeeds |
| SymbolEngine.RenderReadsBack | mesalib/src/util/u_debug_symbol.c:209-228 | the four output formats read back: a symbol or a raw pointer is the text itself; `name at file:line` and `addr at module+0xoff` end in digits that denote the line number and the offset, after the fixed separators |
| SymbolEngine.ModuleFallback | mesalib/src/util/u_debug_symbol.c:198-213 | the module form exists exactly when a module contains the address and its file name fits the 512-byte buffer; its offset is the distance from the module base taken as a 32-bit `unsigned long` |
| SymbolEngine.SymbolNameDbgHelp | mesalib/src/util/u_debug_symbol.c:155-235 | the session start as above; `SymFromAddr` is dispatched exactly in a started session and `SymGetLineFromAddr64` exactly after a symbol was found, each shim ending with what the loaded provider exports; the symbol and line are the provider's answers exactly when their shims resolve; symbol and line give `name at file:line`, symbol alone gives `name`, no symbol gives the module form or failure |
| SymbolEngine.SymbolName | mesalib/src/util/u_debug_symbol.c:239-250 | the dbghelp description when there is one, else the raw pointer; the buffer keeps its size and holds a terminated prefix of the description of at most `size - 1` characters |
| SymbolEngine.ChainPicksMostInformative | mesalib/src/util/u_debug_symbol.c:192-248 | the chosen description is derivable from what the lookup learned, and no derivable description is more informative |
| SymbolEngine.ProviderUnavailableFallsBack | mesalib/src/util/u_debug_symbol.c:192-213 | with no provider the description is the module form when one exists and the raw pointer otherwise, and the provider stays unavailable |
| SymbolEngine.ProviderAvailableIsUsed | mesalib/src/util/u_debug_symbol.c:176-231 | when a provider library loads and exports the entry points and initialisation succeeds, the first lookup starts the session and describes the address by the provider's symbol and line, by the symbol alone when there is no line, and by the module form only when there is no symbol |
| SymbolEngine.ModuleOffsetExample | mesalib/src/util/u_debug_symbol.c:209-211 | address `0x1500` in a module loaded at `0x1000`, with no provider, is described as the pointer, the module name and `+0x500` |
| SymbolEngine.RawAddressExample | mesalib/src/util/u_debug_symbol.c:200-204 | address `0xDEADBEEF` outside every module, with no provider, is described as the bare pointer |
| SymbolEngine.SessionStartsOnce | mesalib/src/util/u_debug_symbol.c:176-189 | once the session flag is set, no later lookup cleans up, sets options or initialises, and the flag stays set |
| SymbolCache.NameCached | mesalib/src/util/u_debug_symbol.c:263-280 | a hit returns the stored string, changes nothing and computes nothing; a miss computes the description, stores the `strdup` of the buffer, and leaves every other entry as it was; the table exists afterwards |
| SymbolCache.CacheOnlyGrows | mesalib/src/util/u_debug_symbol.c:268-279 | over any sequence of lookups, entries are never changed or removed, and every looked-up address ends up stored with the string its lookup returned |
| SymbolCache.CacheHitsAreReturned | mesalib/src/util/u_debug_symbol.c:270-279 | a lookup of an address stored before the sequence returns the stored string without computing |
| SymbolCache.CacheIsStable | mesalib/src/util/u_debug_symbol.c:270-279 | a later lookup of an address returns exactly what the earlier one returned, without computing |
| SymbolCache.FirstLookupComputes | mesalib/src/util/u_debug_symbol.c:268-276 | the first lookup in the process computes its description and creates the table holding exactly that address |
| RegisterDemand.ExtraSgprs | mesalib/src/amd/compiler/aco_live_var_analysis.cpp:243-267 | the result is 0, 2, 4 or 6, and it is two SGPRs for each special pair in the shortest prefix of the chip's layout (VCC, XNACK mask, flat scratch) that holds every needed pair |
| RegisterDemand.ReservedPrefixIsShortest | mesalib/src/amd/compiler/aco_live_var_analysis.cpp:245-266 | the reserved prefix holds every pair the program needs, and its last pair is needed, so no shorter prefix would do |
| RegisterDemand.Alloc | mesalib/src/amd/compiler/aco_live_var_analysis.cpp:273-274 | the shared rounding of the two allocations is a `uint16_t`; without overflow it is a multiple of the granule, at least one granule and the count, and less than one granule above the larger of the two |
| RegisterDemand.SgprAlloc | mesalib/src/amd/compiler/aco_live_var_analysis.cpp:269-275 | the SGPR allocation is a multiple of the granule, at least one granule, and covers the addressable and the special SGPRs (without 16-bit overflow) |
| RegisterDemand.SgprAllocIsLeast | mesalib/src/amd/compiler/aco_live_var_analysis.cpp:272-274 | every multiple of the granule that covers the demand and one granule is at least the SGPR allocation |
| RegisterDemand.VgprAlloc | mesalib/src/amd/compiler/aco_live_var_analysis.cpp:277-282 | the VGPR allocation is a multiple of the granule, at least one granule and at least the demand (without 16-bit overflow) |
| RegisterDemand.VgprAllocIsLeast | mesalib/src/amd/compiler/aco_live_var_analysis.cpp:280-281 | every multiple of the granule that covers the demand and one granule is at least the VGPR allocation |
| RegisterDemand.AddrSgprFromWaves | mesalib/src/amd/compiler/aco_live_var_analysis.cpp:284-289 | the addressable SGPRs left per wave never exceed the SGPR limit |
| RegisterDemand.AddrSgprIsLargestFit | mesalib/src/amd/compiler/aco_live_var_analysis.cpp:284-289 | `n` addressable SGPRs stay within what `waves` waves leave exactly when `waves` allocations for `n` fit the physical SGPRs |
| RegisterDemand.AddrVgprFromWaves | mesalib/src/amd/compiler/aco_live_var_analysis.cpp:291-295 | the VGPRs left per wave never exceed the VGPR limit |
| RegisterDemand.AddrVgprIsLargestFit | mesalib/src/amd/compiler/aco_live_var_analysis.cpp:291-295 | `n` VGPRs stay within what `waves` waves leave exactly when `waves` allocations for `n` fit the 256 physical VGPRs |
| RegisterDemand.WavesPerWorkgroup | mesalib/src/amd/compiler/aco_live_var_analysis.cpp:232-240 | the result is the workgroup size divided by the wave size and rounded up, and 1 outside compute shaders |
| RegisterDemand.CalcMinWaves | mesalib/src/amd/compiler/aco_live_var_analysis.cpp:297-309 | only `min_waves` changes, and it is the workgroup size in wave64 waves spread over the SIMDs of a CU (of a WGP from GFX10 on), rounded up |
| RegisterDemand.MinWavesInWave64Units | mesalib/src/amd/compiler/aco_live_var_analysis.cpp:299-308 | rounding to waves, then to wave64 waves, then to SIMDs is one rounding of the workgroup size to wave64 waves per SIMD |
| RegisterDemand.UpdateDemand | mesalib/src/amd/compiler/aco_live_var_analysis.cpp:311-350 | a demand over a limit gives zero waves and records the demand; the result is undefined exactly when, within the limits, an allocation is zero, the workgroup and LDS limit divides by zero, or no wave fits; otherwise only the wave counts and the maximum demand change, `max_waves` is the workgroup and LDS limit, `1 <= num_waves <= max_waves <= 10`, the wave count is the largest up to `max_waves` whose allocations fit both register files, and the maximum demand is exactly what `get_addr_vgpr_from_waves` and `get_addr_sgpr_from_waves` give at that wave count, within the limits and covering the demand |
| RegisterDemand.WavesByRegs | mesalib/src/amd/compiler/aco_live_var_analysis.cpp:326-327 | the register files allow the largest wave count whose allocations fit both the physical SGPRs and the 256 VGPRs |
| RegisterDemand.MaxWaves | mesalib/src/amd/compiler/aco_live_var_analysis.cpp:328-343 | the workgroup and LDS limit is the waves of the workgroups a CU holds spread over its SIMDs and rounded up (the least count whose product with the SIMDs covers them), which is at most 10; it is undefined exactly when a division by zero happens on the way |
| RegisterDemand.WorkgroupsPerCu | mesalib/src/amd/compiler/aco_live_var_analysis.cpp:331-338 | the workgroups a CU (or WGP) holds fit its wave slots and, for multi-wave workgroups before GFX10, number at most 16 |
| RegisterDemand.WorkgroupsPerCuFits | mesalib/src/amd/compiler/aco_live_var_analysis.cpp:331-338 | the workgroups per CU fit its wave slots, fit its LDS when the program uses LDS, and number at most 16 for multi-wave workgroups before GFX10 |
| RegisterDemand.WorkgroupsPerCuIsLargest | mesalib/src/amd/compiler/aco_live_var_analysis.cpp:331-338 | every workgroup count within those three caps is at most the one computed |
| RegisterDemand.DemandStaysAddressable | mesalib/src/amd/compiler/aco_live_var_analysis.cpp:346-348 | a demand whose allocations fit `waves` times stays within the SGPRs and VGPRs that `waves` waves leave addressable |
| RegisterDemand.SchedulableNeverFaults | mesalib/src/amd/compiler/aco_live_var_analysis.cpp:322-346 | on a program whose limits fit the hardware, a demand within the limits never divides by zero and gets at least one wave |
| RegisterDemand.WorkgroupsAllowOneWave | mesalib/src/amd/compiler/aco_live_var_analysis.cpp:331-343 | on such a program the workgroup and LDS limits allow between 1 and 10 waves per SIMD |
| LiveSets.BackwardIsUpwardExposed | mesalib/src/amd/compiler/aco_live_var_analysis.cpp:73-143 | the backward KILL/GEN walk yields exactly the temporaries that some instruction reads with no earlier definition, or that are live after the block and never defined in it |
| LiveSets.LiveInIsUpwardExposed | mesalib/src/amd/compiler/aco_live_var_analysis.cpp:53-174 | a temporary is live into a block exactly when it is upward exposed from the live-out set and the live exec mask, and no phi of the block defines it |
| LiveSets.LiveInMonotone | mesalib/src/amd/compiler/aco_live_var_analysis.cpp:53-174 | a larger live-out set gives a live-in set at least as large |
| LiveSets.PhiUsesMeaning | mesalib/src/amd/compiler/aco_live_var_analysis.cpp:193-217 | what the phis ask of a predecessor is exactly the temporary operands whose position matches that predecessor in the phi's logical or linear predecessor list |
| LiveSets.NeedMonotone | mesalib/src/amd/compiler/aco_live_var_analysis.cpp:176-217 | a larger live-out set makes a block ask at least as much of each predecessor |
| LiveSets.NeedWithin | mesalib/src/amd/compiler/aco_live_var_analysis.cpp:176-217 | a block never asks a predecessor for a temporary outside its own live-out set and the temporaries the program names |
| KillFlags.Kill | mesalib/src/amd/compiler/aco_live_var_analysis.cpp:85-108 | the definitions are erased from the live set, and a definition is killed exactly when it was not live after the instruction or an earlier definition of the instruction already erased it |
| KillFlags.MarkLaterDuplicates | mesalib/src/amd/compiler/aco_live_var_analysis.cpp:126-131 | every later operand naming the same temporary gets kill without first-kill, and every other operand keeps its flags |
| KillFlags.GenAsWritten | mesalib/src/amd/compiler/aco_live_var_analysis.cpp:110-140 | as written, the operands become live, and an operand ends up killed, and then also first-killed, exactly when its temporary was dead after the instruction and no earlier operand names it |
| KillFlags.GenOperandAsWritten | mesalib/src/amd/compiler/aco_live_var_analysis.cpp:116-135 | one operand of GEN as written keeps the loop's account of the final and the pending flags |
| KillFlags.GenDeadOperand | mesalib/src/amd/compiler/aco_live_var_analysis.cpp:124-132 | an operand whose temporary is not yet live becomes live, is first-killed, and marks its later duplicates |
| KillFlags.Gen | mesalib/src/amd/compiler/aco_live_var_analysis.cpp:110-140 | corrected GEN: every operand whose temporary is dead after the instruction is killed, and exactly the first of them per temporary is first-killed |
| KillFlags.GenOperand | mesalib/src/amd/compiler/aco_live_var_analysis.cpp:116-132 | one operand of the corrected GEN keeps the loop's account of the final and the pending flags |
| KillFlags.DuplicateOperandExample | mesalib/src/amd/compiler/aco_live_var_analysis.cpp:114-135 | a dead temporary read twice gets kill flags `[true, false]` as written, and `[true, true]` with first-kill `[true, false]` once corrected |
| KillFlags.InstrStep | mesalib/src/amd/compiler/aco_live_var_analysis.cpp:85-140 | one step of the walk moves the live set from after the instruction to before it (definitions out, operands in unless it is `p_logical_end`); the definition flags are the source's, and the operand flags are those of the corrected GEN, which differ from the code on repeated dead operands |
| LiveAnalysis.AddLiveOut | mesalib/src/amd/compiler/aco_live_var_analysis.cpp:179-181 | inserting into a predecessor's live-out set only adds, and queues the predecessor exactly when something new went in |
| LiveAnalysis.MergeInto | mesalib/src/amd/compiler/aco_live_var_analysis.cpp:177-191 | each listed predecessor's set gains the given temporaries, the others are unchanged, and the queued blocks are exactly those whose sets grew |
| LiveAnalysis.MergePhiOperands | mesalib/src/amd/compiler/aco_live_var_analysis.cpp:199-215 | each predecessor's set gains the phi's temporary operands that flow in from it, and the queued blocks are exactly those whose sets grew |
| LiveAnalysis.MergePhis | mesalib/src/amd/compiler/aco_live_var_analysis.cpp:193-217 | each predecessor's set gains every phi operand that flows in from it |
| LiveAnalysis.WalkInstrs | mesalib/src/amd/compiler/aco_live_var_analysis.cpp:53-143 | the walk from the live-out set and the live exec mask ends in the backward live set, and every instruction's flags match what is live after it, with operand flags from the corrected GEN |
| LiveAnalysis.RemovePhiDefs | mesalib/src/amd/compiler/aco_live_var_analysis.cpp:151-174 | the phi definitions leave the live set, and each is killed exactly when it was not live after the phis or a later phi defines the same temporary |
| LiveAnalysis.ProcessBlock | mesalib/src/amd/compiler/aco_live_var_analysis.cpp:41-230 | every predecessor's set gains exactly what the block asks of it, the queued blocks are exactly those whose sets grew, the abort happens exactly for live-ins at the first block, and the flags match the block's live-out set, with operand flags from the corrected GEN |
| LiveAnalysis.MaxExists | mesalib/src/amd/compiler/aco_live_var_analysis.cpp:366-367 | a non-empty worklist has a highest block index |
| LiveAnalysis.Iterate | mesalib/src/amd/compiler/aco_live_var_analysis.cpp:365-370 | the highest queued block is processed; the sets only grow, it leaves the worklist and exactly the blocks whose sets grew join; an abort happens only when every solution has live-ins at the first block |
| LiveAnalysis.LiveVarAnalysis | mesalib/src/amd/compiler/aco_live_var_analysis.cpp:352-371 | the pass ends with the least live-out sets that meet every block's needs, with no live-ins at the first block and every block's flags matching, with operand flags from the corrected GEN; it aborts only when every solution has live-ins at the first block |
| LiveAnalysis.InitialInvariant | mesalib/src/amd/compiler/aco_live_var_analysis.cpp:356-364 | empty live-out sets with every block queued are below every solution |
| LiveAnalysis.Finished | mesalib/src/amd/compiler/aco_live_var_analysis.cpp:365 | with the worklist empty, the sets meet every block's needs and are below every solution |
| LiveAnalysis.StepKeepsInvariant | mesalib/src/amd/compiler/aco_live_var_analysis.cpp:366-369 | processing a queued block keeps the sets below every solution and every block off the worklist settled |
| LiveAnalysis.StepMakesProgress | mesalib/src/amd/compiler/aco_live_var_analysis.cpp:366-369 | processing a queued block grows some live-out set or shrinks the worklist, so the loop ends |
| LiveAnalysis.EntryLiveInPersists | mesalib/src/amd/compiler/aco_live_var_analysis.cpp:219-227 | a live-in at the first block under sets below every solution is a live-in under every solution |
| LiveAnalysis.StepStaysBelow | mesalib/src/amd/compiler/aco_live_var_analysis.cpp:176-217 | a step from below a solution stays below it |
| LiveAnalysis.StepKeepsStable | mesalib/src/amd/compiler/aco_live_var_analysis.cpp:177-191 | after a step, every block not requeued still has its needs met and its flags up to date |

## Left out

- Concurrency: the mutex of `debug_symbol_name_cached` and the unsynchronised statics. The model is sequential, so every lookup-or-insert is one step.
- `debug_symbol_print` and `debug_printf`: output only.
- The `_GAMING_XBOX` branch of `debug_symbol_name_dbghelp`.
- Windows and DbgHelp calls (`LoadLibraryA`, `GetProcAddress`, `GetModuleHandleEx`, `GetModuleFileNameA`, the `Sym*` functions) and `%p`: these are oracles of `Win32.Env`. `GetModuleFileNameA` is reduced to "the name does not fit" when it has 512 characters or more.
- The memory of `strdup` and the identity of returned pointers: strings are compared by value.
- TextFormat.Snprintf: models C99 `snprintf`, which always terminates when the size is non-zero. Older MSVC runtimes that do not terminate on truncation are not modelled.
- `aco_print_program`, the `fprintf` diagnostics and `abort()`: the abort is the `None` result of `LiveAnalysis.LiveVarAnalysis`.
- LiveAnalysis.LiveVarAnalysis: does not compute the per-instruction and per-block `RegisterDemand`, the `new_demand` total handed to `update_vgpr_sgpr_demand`, the `phi_sgpr_ops` accounting, or the exec-mask demand bookkeeping. Their arithmetic lives in `aco_ir.h`, which is not part of this model. `RegisterDemand.UpdateDemand` takes the demand as a parameter instead.
- LiveAnalysis.ProcessBlock: does not model the kill flag that the phi-operand merge sets on an operand it inserts. That flag depends on the order in which blocks were processed, not on the final live-out sets.
- KillFlags.InstrStep: reports no operand flags for `p_logical_end`. The pass leaves that instruction's operand flags as they were.
- KillFlags.InstrStep: the operand flags are those of the corrected GEN (`KillFlags.Gen`), not the code's. On an instruction that reads a dead temporary twice, the code leaves the second operand unkilled (see "Findings"); `KillFlags.GenAsWritten` models that.
- LiveAnalysis.WalkInstrs: the operand flags it states are those of the corrected GEN, through `KillFlags.InstrStep`.
- LiveAnalysis.ProcessBlock: the operand flags it states are those of the corrected GEN, through `LiveAnalysis.WalkInstrs`.
- LiveAnalysis.LiveVarAnalysis: the operand flags it states are those of the corrected GEN, through `LiveAnalysis.ProcessBlock`.
- Operands and definitions that are not temporaries (constants, fixed registers) are omitted from `LiveSets.Instr`. The `exec` tracking through fixed definitions and operands is left out with them.
- `LiveSets.Temp` compares temporaries by id and register class (linear or not). The live exec mask is assumed to be a linear temporary, as the pass's SGPR set assumes.
- RegisterDemand.SgprAlloc: the multiple-of-granule, at-least-one-granule and covering bounds are proved only when no 16-bit overflow occurs. The result always fits in a `uint16_t`.
- RegisterDemand.VgprAlloc: the same holds as for `SgprAlloc`.
- RegisterDemand.UpdateDemand: the maximum demand covers the demand only under `NoOverflow`. Its `int16_t` storage is not modelled. A division by zero, which is undefined behaviour in C++, is the `None` result, and so is a wave count of zero within the limits, after which the source would divide by zero in `get_addr_vgpr_from_waves`.
- RegisterDemand.WavesPerWorkgroup: the 32-bit wrap of the block-size product is not modelled. The product is taken as an unbounded integer.
- RegisterDemand.MaxWaves: the 32-bit wrap of `workgroups_per_cu_wgp * waves_per_workgroup` and of `lds_size * lds_alloc_granule` is not modelled.
- `mesalib/src/vulkan/runtime/vk_pipeline.h`, `mesalib/src/amd/compiler/aco_opcodes_h.py` and `pixman/test/scaling-bench.c` are not part of this model. The first two hold declarations and a code-generation template; the third is an unrelated benchmark.

## Findings

| source | as written | input that shows it | evidently intended | confidence | as-written member | corrected member |
|---|---|---|---|---|---|---|
| mesalib/src/amd/compiler/aco_live_var_analysis.cpp:124-135 | when an operand's temporary is already live, GEN clears its kill flag; that also clears the kill flag the inner loop gave the same operand as a later duplicate of a dead temporary | an instruction whose operands are `[t, t]`, with `t` dead after it | every operand naming a dead temporary is killed and only the first is first-killed: kill `[true, true]`, first-kill `[true, false]`; as written the kill flags are `[true, false]` | medium, not executed | KillFlags.GenAsWritten, KillFlags.DuplicateOperandExample | KillFlags.Gen, KillFlags.InstrStep, LiveAnalysis.WalkInstrs, LiveAnalysis.ProcessBlock, LiveAnalysis.LiveVarAnalysis |

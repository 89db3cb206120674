/**
 * The parts of the Windows process the symbol lookup talks to, reduced to
 * oracles. Every operation of the symbol modules takes an `Env`; nothing
 * promises that two calls see the same `Env`, so a library may appear or a
 * provider may start answering between two lookups.
 */
module Win32 {
  import opened Wrappers

  /** An in-process address (a `uintptr_t` value). */
  type Addr = nat

  /** A loaded module handle (`HMODULE`); NULL is modelled by `None`. */
  type Handle = nat

  /** A resolved entry point (`FARPROC`); NULL is modelled by `None`. */
  type Proc = nat

  /** `IMAGEHLP_LINE64` as far as the lookup reads it. */
  datatype LineInfo = LineInfo(fileName: string, lineNumber: nat)

  /** The module that contains an address: its load base and its full file name. */
  datatype ModuleInfo = ModuleInfo(base: Addr, fileName: string)

  /** Every outside answer the lookup can receive. */
  datatype Env = Env(
    /** The build uses the GCC (MinGW) toolchain. */
    gccBuild: bool,
    /** `LoadLibraryA`: the handle of a library, if it can be loaded. */
    loadLibrary: string -> Option<Handle>,
    /** `GetProcAddress`: the named entry point inside a loaded library. */
    procAddress: (Handle, string) -> Option<Proc>,
    /** The `GALLIUM_SYMBOL_FORCE_REINIT` option. */
    forceReinit: bool,
    /** Whether the provider's `SymInitialize` reports success. */
    symInitialize: bool,
    /** The provider's `SymFromAddr`: the symbol covering an address. */
    symFromAddr: Addr -> Option<string>,
    /** The provider's `SymGetLineFromAddr64`: source file and line of an address. */
    symGetLine: Addr -> Option<LineInfo>,
    /** `GetModuleHandleEx` followed by `GetModuleFileNameA` on the result. */
    moduleOf: Addr -> Option<ModuleInfo>,
    /** The C library's `%p` rendering of an address. */
    pointerText: Addr -> string
  )

  /** Size of the lookup's scratch buffer, `CHAR buffer[512]`. */
  const ScratchSize: nat := 512

  /** `SYMOPT_LOAD_LINES`, the only option the lookup asks for. */
  const SymOptLoadLines: nat := 0x10

  /** `sizeof(unsigned long)` on Windows is 4 bytes, so `%lx` sees the offset modulo 2^32. */
  const ULongModulus: nat := 0x1_0000_0000

  /** `uintptr_t` arithmetic on a 64-bit process wraps modulo 2^64. */
  const PointerModulus: nat := 0x1_0000_0000_0000_0000
}

/**
 * The parts of the kconfig host model that the configfix core reads.
 *
 * The core never mutates a symbol: it reads a symbol's static data (name,
 * type, prompt, direct dependency) and its current state (tristate value,
 * string value, allowed range) through a handful of host queries.  Here a
 * symbol is a value record whose `id` stands for the C pointer identity, and
 * the current state is a function supplied by the host.  symbol.c, expr.c
 * and menu.c are not part of this model; the queries below follow their
 * documented behaviour.
 */
module Host {

  datatype Option<+T> = None | Some(value: T)

  datatype Result<+T, +E> = Ok(value: T) | Err(error: E)

  /** kconfig's `tristate` enum. */
  datatype Tristate = No | Mod | Yes

  /** The C enum values: no = 0, mod = 1, yes = 2, so `<` on them is no < mod < yes. */
  function Ord(t: Tristate): (n: nat)
    ensures n <= 2
  {
    match t
    case No => 0
    case Mod => 1
    case Yes => 2
  }

  /** kconfig's `enum symbol_type`. */
  datatype SymbolType = SUnknown | SBoolean | STristate | SInt | SHex | SString

  /** A kconfig `struct symbol`: the static part the core looks at. */
  datatype Symbol = Symbol(
    id: nat,                  // stands for the symbol's address
    name: Option<string>,     // NULL for choice symbols
    stype: SymbolType,        // the declared type, sym->type
    isChoice: bool,
    isChoiceValue: bool,      // a value of some choice (sym_is_choice_value)
    prompt: Option<string>,   // text of the first prompt property, if any
    dirDep: Option<Expr>)     // sym->dir_dep.expr

  /** The ordering comparisons of kconfig expressions. */
  datatype CmpOp = Lth | Leq | Gth | Geq

  /** A kconfig `struct expr`, by its `expr_type`. */
  datatype Expr =
    | ENone
    | EOr(left: Expr, right: Expr)
    | EAnd(left: Expr, right: Expr)
    | ENot(operand: Expr)
    | EEqual(lsym: Symbol, rsym: Symbol)
    | EUnequal(lsym: Symbol, rsym: Symbol)
    | ECompare(op: CmpOp, lsym: Symbol, rsym: Symbol)
    | EList(sym: Symbol)
    | ESymbol(sym: Symbol)
    | ERange(lsym: Symbol, rsym: Symbol)

  /** The current state of one symbol, as the host computes it. */
  datatype SymbolState = SymbolState(tri: Tristate, str: string, inRange: set<Tristate>, visible: Tristate)

  /**
   * The host configuration: the symbol table by name (for sym_find), every
   * symbol in table order (for for_all_symbols), the current state and
   * `modules_val`, the value of the MODULES symbol.
   */
  datatype Config = Config(
    table: map<string, Symbol>,
    symbols: seq<Symbol>,
    state: Symbol -> SymbolState,
    modulesVal: Tristate)

  /** The three constant symbols `symbol_yes`, `symbol_mod`, `symbol_no` (type S_UNKNOWN). */
  const SymbolYes: Symbol := Symbol(0, Some("y"), SUnknown, false, false, None, None)
  const SymbolMod: Symbol := Symbol(1, Some("m"), SUnknown, false, false, None, None)
  const SymbolNo: Symbol := Symbol(2, Some("n"), SUnknown, false, false, None, None)

  function SymFind(h: Config, name: string): Option<Symbol>
  {
    if name in h.table then Some(h.table[name]) else None
  }

  /**
   * sym_get_type: the declared type, except that a tristate reads as bool
   * when it is a choice value of a visible-as-yes choice or when modules
   * are off.  The declared type itself is `s.stype`.
   */
  function SymGetType(h: Config, s: Symbol): (t: SymbolType)
    ensures s.stype != STristate ==> t == s.stype
    ensures s.stype == STristate ==> (t == SBoolean <==> (s.isChoiceValue && h.state(s).visible == Yes) || h.modulesVal == No)
    ensures s.stype == STristate && t != SBoolean ==> t == STristate
  {
    if s.stype == STristate && ((s.isChoiceValue && h.state(s).visible == Yes) || h.modulesVal == No) then SBoolean
    else s.stype
  }

  function SymGetTristateValue(h: Config, s: Symbol): Tristate
  {
    h.state(s).tri
  }

  function SymGetStringValue(h: Config, s: Symbol): string
  {
    h.state(s).str
  }

  function SymTristateWithinRange(h: Config, s: Symbol, v: Tristate): bool
  {
    v in h.state(s).inRange
  }

  function SymHasPrompt(s: Symbol): bool
  {
    s.prompt.Some?
  }

  /**
   * expr_contains_symbol: does `dep` mention `sym` as an operand?  A NULL
   * expression mentions nothing, and nothing is equal to a NULL symbol.
   */
  function ExprContainsSymbol(dep: Option<Expr>, sym: Option<Symbol>): (r: bool)
    ensures sym.None? ==> !r
  {
    match dep
    case None => false
    case Some(e) => ContainsSymbol(e, sym)
  }

  function ContainsSymbol(e: Expr, sym: Option<Symbol>): (r: bool)
    ensures sym.None? ==> !r
  {
    match e
    case EAnd(a, b) => ContainsSymbol(a, sym) || ContainsSymbol(b, sym)
    case EOr(a, b) => ContainsSymbol(a, sym) || ContainsSymbol(b, sym)
    case ENot(a) => ContainsSymbol(a, sym)
    case ESymbol(s) => sym == Some(s)
    case EEqual(l, r) => sym == Some(l) || sym == Some(r)
    case EUnequal(l, r) => sym == Some(l) || sym == Some(r)
    case ECompare(_, l, r) => sym == Some(l) || sym == Some(r)
    case _ => false
  }
}

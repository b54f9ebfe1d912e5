/**
 * configfix's cf_utils.c: the expression translator from kconfig `expr` to
 * `k_expr`, the tristate helpers, and the bookkeeping of SAT variables
 * (the two boolean constants, the literal pairs of the tristate constants,
 * and fresh Tseytin temporaries registered in `satmap`).
 */
module CfUtils {
  import opened Host
  import opened CText
  import opened CfDefs

  // ---------------------------------------------------------------------
  // Type predicates

  predicate IsTristateConstant(s: Symbol)
  {
    s == SymbolYes || s == SymbolMod || s == SymbolNo
  }

  predicate SymIsBoolean(s: Symbol)
  {
    s.stype == SBoolean || s.stype == STristate
  }

  predicate SymIsBoolOrTriconst(s: Symbol)
  {
    IsTristateConstant(s) || SymIsBoolean(s)
  }

  predicate SymIsNonboolean(s: Symbol)
  {
    s.stype == SInt || s.stype == SHex || s.stype == SString
  }

  /** No symbol is both boolean and non-boolean, and the constants are neither. */
  lemma TypeClasses(s: Symbol)
    ensures !(SymIsBoolean(s) && SymIsNonboolean(s))
    ensures IsTristateConstant(s) ==> !SymIsBoolean(s) && !SymIsNonboolean(s)
    ensures SymIsBoolOrTriconst(s) <==> IsTristateConstant(s) || s.stype in {SBoolean, STristate}
  {
  }

  /**
   * sym_is_boolean and sym_is_nonboolean read the declared type;
   * sym_get_type never moves a symbol from one class to the other, and
   * reports a tristate only for a symbol declared tristate.
   */
  lemma TypeClassesUnderGetType(h: Config, s: Symbol)
    ensures SymIsBoolean(s) <==> SymGetType(h, s) == SBoolean || SymGetType(h, s) == STristate
    ensures SymIsNonboolean(s) <==> SymGetType(h, s) in {SInt, SHex, SString}
    ensures SymGetType(h, s) == STristate ==> s.stype == STristate
  {
  }

  /**
   * What kconfig guarantees of its symbols and sym_get_name asserts: only a
   * choice is nameless, and a choice has a prompt.
   */
  predicate Nameable(s: Symbol)
  {
    (s.name.None? ==> s.isChoice) && (s.isChoice ==> SymHasPrompt(s))
  }

  /**
   * sym_get_name: a choice is named by its prompt text (the C asserts the
   * prompt exists; None here), any other symbol by its name, which may be
   * NULL.  Every symbol kconfig can create gets a name.
   */
  function SymGetName(s: Symbol): (r: Option<string>)
    ensures Nameable(s) ==> r.Some?
    ensures r.Some? && !s.isChoice ==> r == s.name
    ensures r.Some? && s.isChoice ==> Some(r.value) == s.prompt
    ensures r.None? ==> (if s.isChoice then !SymHasPrompt(s) else s.name.None?)
  {
    if s.isChoice then s.prompt else s.name
  }

  /** sym_find looks a symbol up under its own name. */
  predicate TableByName(h: Config)
  {
    forall n :: n in h.table ==> h.table[n].name == Some(n)
  }

  /** The name sym_get_name gives a symbol that sym_find returned is the name it was found under. */
  lemma SymFindThenGetName(h: Config, n: string)
    requires TableByName(h)
    requires SymFind(h, n).Some? && !SymFind(h, n).value.isChoice
    ensures SymGetName(SymFind(h, n).value) == Some(n)
  {
    assert n in h.table;
  }

  // ---------------------------------------------------------------------
  // Tristate names

  /**
   * tristate_get_char, on the C enum value: the three tristate values get
   * the names "no", "mod", "yes", anything else the empty string.
   */
  function TristateGetChar(code: int): (s: string)
    ensures s == "" <==> !(0 <= code <= 2)
    ensures 0 <= code <= 2 ==> s[0] == (if code == 0 then 'n' else if code == 1 then 'm' else 'y')
  {
    match code
    case 2 => "yes"
    case 1 => "mod"
    case 0 => "no"
    case _ => ""
  }

  /** Distinct tristate values have distinct names. */
  lemma TristateNamesDistinct(t: Tristate, u: Tristate)
    requires TristateGetChar(Ord(t)) == TristateGetChar(Ord(u))
    ensures t == u
  {
    assert TristateGetChar(Ord(t))[0] == TristateGetChar(Ord(u))[0];
  }

  // ---------------------------------------------------------------------
  // The two-literal encoding of tristate constants

  /**
   * The (y-literal, m-literal) pair that create_constants gives each
   * tristate constant: yes = (true, false), mod = (false, true),
   * no = (false, false).
   */
  function ConstPair(t: Tristate): (p: (bool, bool))
    ensures !(p.0 && p.1)
    ensures p.0 <==> t == Yes
    ensures p.1 <==> t == Mod
  {
    match t
    case Yes => (true, false)
    case Mod => (false, true)
    case No => (false, false)
  }

  /** Reading a tristate back from its two literals; both true is no value. */
  function DecodePair(y: bool, m: bool): Option<Tristate>
  {
    if y && m then None
    else if y then Some(Yes)
    else if m then Some(Mod)
    else Some(No)
  }

  /** The encoding is a bijection between tristates and the three allowed pairs. */
  lemma EncodingRoundTrip(t: Tristate, y: bool, m: bool)
    ensures DecodePair(ConstPair(t).0, ConstPair(t).1) == Some(t)
    ensures DecodePair(y, m).Some? ==> ConstPair(DecodePair(y, m).value) == (y, m)
    ensures DecodePair(true, true).None?
  {
  }

  // ---------------------------------------------------------------------
  // can_evaluate_to_mod and what it promises

  /** A symbol that may hold mod: the mod constant, or a symbol declared tristate. */
  predicate ModCapable(s: Symbol)
  {
    s == SymbolMod || s.stype == STristate
  }

  /**
   * The symbols a k_expr reads as tristate operands: its KE_SYMBOL leaves
   * under AND/OR/NOT, not the operands of an (un)equality.
   */
  function SymbolLeaves(e: Option<KExpr>): set<Symbol>
  {
    match e
    case None => {}
    case Some(k) =>
      match k
      case KSymbol(s, _) => {s}
      case KAnd(l, r) => SymbolLeaves(l) + SymbolLeaves(r)
      case KOr(l, r) => SymbolLeaves(l) + SymbolLeaves(r)
      case KNot(l) => SymbolLeaves(l)
      case _ => {}
  }

  /**
   * can_evaluate_to_mod; a NULL expression cannot.  It tests the declared
   * type, so it answers exactly whether some symbol leaf may hold mod.
   */
  function CanEvaluateToMod(e: Option<KExpr>): (r: bool)
    ensures r <==> exists s :: s in SymbolLeaves(e) && ModCapable(s)
  {
    match e
    case None => false
    case Some(k) =>
      match k
      case KSymbol(s, _) => assert s in SymbolLeaves(e); s == SymbolMod || s.stype == STristate
      case KAnd(l, r) => CanEvaluateToMod(l) || CanEvaluateToMod(r)
      case KOr(l, r) => CanEvaluateToMod(l) || CanEvaluateToMod(r)
      case KNot(l) => CanEvaluateToMod(l)
      case KEqual(_, _) => false
      case KUnequal(_, _) => false
      case KConstFalse => false
      case KConstTrue => false
  }

  function Min(a: Tristate, b: Tristate): Tristate
  {
    if Ord(a) <= Ord(b) then a else b
  }

  function Max(a: Tristate, b: Tristate): Tristate
  {
    if Ord(a) >= Ord(b) then a else b
  }

  function Negate(a: Tristate): Tristate
  {
    match a
    case Yes => No
    case Mod => Mod
    case No => Yes
  }

  /**
   * Kconfig's tristate reading of a k_expr under a valuation of the symbols:
   * AND is the minimum, OR the maximum, NOT is 2 - v, an (un)equality is yes
   * or no, a NULL expression is yes (as in kconfig's expr_calc_value).
   */
  function KEval(e: Option<KExpr>, val: Symbol -> Tristate): Tristate
  {
    match e
    case None => Yes
    case Some(k) =>
      match k
      case KSymbol(s, _) => val(s)
      case KAnd(l, r) => Min(KEval(l, val), KEval(r, val))
      case KOr(l, r) => Max(KEval(l, val), KEval(r, val))
      case KNot(l) => Negate(KEval(l, val))
      case KEqual(s, v) => if val(s) == val(v) then Yes else No
      case KUnequal(s, v) => if val(s) != val(v) then Yes else No
      case KConstFalse => No
      case KConstTrue => Yes
  }

  /**
   * A valuation in which only the mod constant and tristate symbols take
   * the value mod.
   */
  ghost predicate TypedValuation(val: Symbol -> Tristate)
  {
    forall s :: val(s) == Mod ==> ModCapable(s)
  }

  /**
   * Soundness of can_evaluate_to_mod: an expression for which it answers
   * false never evaluates to mod under a typed valuation.
   */
  lemma {:induction false} CannotEvaluateToModSound(e: Option<KExpr>, val: Symbol -> Tristate)
    requires TypedValuation(val)
    requires !CanEvaluateToMod(e)
    ensures KEval(e, val) != Mod
  {
    match e
    case None =>
    case Some(k) =>
      match k
      case KSymbol(s, _) =>
      case KAnd(l, r) =>
        CannotEvaluateToModSound(l, val);
        CannotEvaluateToModSound(r, val);
      case KOr(l, r) =>
        CannotEvaluateToModSound(l, val);
        CannotEvaluateToModSound(r, val);
      case KNot(l) =>
        CannotEvaluateToModSound(l, val);
      case KEqual(_, _) =>
      case KUnequal(_, _) =>
      case KConstFalse =>
      case KConstTrue =>
  }

  // ---------------------------------------------------------------------
  // Folding ordering comparisons

  function Holds(op: CmpOp, a: int, b: int): bool
  {
    match op
    case Lth => a < b
    case Leq => a <= b
    case Gth => a > b
    case Geq => a >= b
  }

  function GccVersion(h: Config): Option<Symbol>
  {
    SymFind(h, "GCC_VERSION")
  }

  /**
   * What gcc_version_eval needs: the operand that is not GCC_VERSION is a
   * literal whose name it parses, so that name is not NULL.
   */
  predicate GccOperandsNamed(h: Config, e: Expr)
    requires e.ECompare?
  {
    if GccVersion(h) == Some(e.lsym) then e.rsym.name.Some? else e.lsym.name.Some?
  }

  /** The installed version: strtoll of GCC_VERSION's value, taken from the left operand if it is GCC_VERSION and from the right one otherwise. */
  function GccActual(h: Config, e: Expr): int
    requires e.ECompare?
  {
    if GccVersion(h) == Some(e.lsym) then StrToLL(SymGetStringValue(h, e.lsym))
    else StrToLL(SymGetStringValue(h, e.rsym))
  }

  /** The version literal: strtoll of the other operand's name. */
  function GccLiteral(h: Config, e: Expr): int
    requires e.ECompare? && GccOperandsNamed(h, e)
  {
    if GccVersion(h) == Some(e.lsym) then StrToLL(e.rsym.name.value)
    else StrToLL(e.lsym.name.value)
  }

  /** gcc_version_eval: always `actual OP literal`, on whichever side GCC_VERSION stands. */
  function GccVersionEval(h: Config, e: Expr): (k: KExpr)
    requires e.ECompare? && GccOperandsNamed(h, e)
    ensures k == KConstTrue || k == KConstFalse
  {
    if Holds(e.op, GccActual(h, e), GccLiteral(h, e)) then KConstTrue else KConstFalse
  }

  /** expr_eval_unequal_bool: compares the current tristate values in the order no < mod < yes. */
  function ExprEvalUnequalBool(h: Config, e: Expr): (k: KExpr)
    requires e.ECompare? && SymIsBoolean(e.lsym) && SymIsBoolean(e.rsym)
    ensures k == KConstTrue || k == KConstFalse
  {
    var l := Ord(SymGetTristateValue(h, e.lsym));
    var r := Ord(SymGetTristateValue(h, e.rsym));
    if Holds(e.op, l, r) then KConstTrue else KConstFalse
  }

  predicate MentionsGcc(h: Config, e: Expr)
  {
    ContainsSymbol(e, GccVersion(h))
  }

  predicate MentionsCramfsAndMtd(h: Config, e: Expr)
  {
    ContainsSymbol(e, SymFind(h, "CRAMFS")) && ContainsSymbol(e, SymFind(h, "MTD"))
  }

  /**
   * What the two evaluators demand of an ordering comparison: a named
   * literal beside GCC_VERSION, and (the asserts of expr_eval_unequal_bool)
   * boolean operands in a CRAMFS/MTD comparison.
   */
  predicate CompareTranslatable(h: Config, e: Expr)
    requires e.ECompare?
  {
    if MentionsGcc(h, e) then GccOperandsNamed(h, e)
    else if MentionsCramfsAndMtd(h, e) then SymIsBoolean(e.lsym) && SymIsBoolean(e.rsym)
    else true
  }

  predicate Translatable(h: Config, e: Expr)
  {
    match e
    case EAnd(a, b) => Translatable(h, a) && Translatable(h, b)
    case EOr(a, b) => Translatable(h, a) && Translatable(h, b)
    case ENot(a) => Translatable(h, a)
    case ECompare(_, _, _) => CompareTranslatable(h, e)
    case _ => true
  }

  /** The ordering-comparison branch of parse_expr. */
  function FoldCompare(h: Config, e: Expr): (k: KExpr)
    requires e.ECompare? && CompareTranslatable(h, e)
    ensures k == KConstTrue || k == KConstFalse
  {
    if MentionsGcc(h, e) then GccVersionEval(h, e)
    else if MentionsCramfsAndMtd(h, e) then ExprEvalUnequalBool(h, e)
    else KConstFalse
  }

  predicate Unrecognised(e: Expr)
  {
    e.ENone? || e.EList? || e.ERange?
  }

  /**
   * parse_expr: AND, OR, NOT, EQUAL and UNEQUAL map structurally, a symbol
   * becomes a leaf with tri = no, an ordering comparison folds to a
   * constant, and any other kind gives NULL.
   */
  function ParseExpr(h: Config, e: Expr): (r: Option<KExpr>)
    requires Translatable(h, e)
    ensures r.None? <==> Unrecognised(e)
  {
    match e
    case ESymbol(s) => Some(KSymbol(s, No))
    case EAnd(a, b) => Some(KAnd(ParseExpr(h, a), ParseExpr(h, b)))
    case EOr(a, b) => Some(KOr(ParseExpr(h, a), ParseExpr(h, b)))
    case ENot(a) => Some(KNot(ParseExpr(h, a)))
    case EEqual(l, r) => Some(KEqual(l, r))
    case EUnequal(l, r) => Some(KUnequal(l, r))
    case ECompare(_, _, _) => Some(FoldCompare(h, e))
    case _ => None
  }

  /** Every ordering comparison becomes a constant, and it is true only in one of the two recognised cases. */
  lemma OrderingFoldsToConstant(h: Config, e: Expr)
    requires e.ECompare? && CompareTranslatable(h, e)
    ensures ParseExpr(h, e) == Some(KConstTrue) || ParseExpr(h, e) == Some(KConstFalse)
    ensures MentionsGcc(h, e) ==>
      (ParseExpr(h, e) == Some(KConstTrue) <==> Holds(e.op, GccActual(h, e), GccLiteral(h, e)))
    ensures !MentionsGcc(h, e) ==>
      (ParseExpr(h, e) == Some(KConstTrue) <==>
        MentionsCramfsAndMtd(h, e) && Holds(e.op, Ord(SymGetTristateValue(h, e.lsym)), Ord(SymGetTristateValue(h, e.rsym))))
  {
  }

  /**
   * With GCC_VERSION on the right, the comparison is still read as
   * `actual OP literal`: `V <= GCC_VERSION` folds to false whenever the
   * installed version is above V, which is exactly when V <= GCC_VERSION
   * holds.
   */
  lemma GccRightOperandNotMirrored(h: Config, lit: Symbol, gcc: Symbol)
    requires GccVersion(h) == Some(gcc) && lit != gcc && lit.name.Some?
    requires StrToLL(lit.name.value) < StrToLL(SymGetStringValue(h, gcc))
    ensures ParseExpr(h, ECompare(Leq, lit, gcc)) == Some(KConstFalse)
  {
    var e := ECompare(Leq, lit, gcc);
    assert MentionsGcc(h, e);
    assert GccVersion(h) != Some(e.lsym);
    assert GccActual(h, e) == StrToLL(SymGetStringValue(h, gcc));
    assert GccLiteral(h, e) == StrToLL(lit.name.value);
    OrderingFoldsToConstant(h, e);
  }

  /** Every symbol leaf that parse_expr builds carries tri = no. */
  predicate LeavesAreNo(k: Option<KExpr>)
  {
    match k
    case None => true
    case Some(n) =>
      match n
      case KSymbol(_, t) => t == No
      case KAnd(l, r) => LeavesAreNo(l) && LeavesAreNo(r)
      case KOr(l, r) => LeavesAreNo(l) && LeavesAreNo(r)
      case KNot(l) => LeavesAreNo(l)
      case _ => true
  }

  lemma {:induction false} ParseLeavesAreNo(h: Config, e: Expr)
    requires Translatable(h, e)
    ensures LeavesAreNo(ParseExpr(h, e))
  {
    match e
    case EAnd(a, b) => ParseLeavesAreNo(h, a); ParseLeavesAreNo(h, b);
    case EOr(a, b) => ParseLeavesAreNo(h, a); ParseLeavesAreNo(h, b);
    case ENot(a) => ParseLeavesAreNo(h, a);
    case _ =>
  }

  /** Expressions built only from the kinds parse_expr maps structurally. */
  predicate OrderFree(e: Expr)
  {
    match e
    case ESymbol(_) => true
    case EAnd(a, b) => OrderFree(a) && OrderFree(b)
    case EOr(a, b) => OrderFree(a) && OrderFree(b)
    case ENot(a) => OrderFree(a)
    case EEqual(_, _) => true
    case EUnequal(_, _) => true
    case _ => false
  }

  /** Reads a k_expr back as a kconfig expression; constants and NULL children have no counterpart. */
  function Unparse(k: Option<KExpr>): Option<Expr>
  {
    match k
    case None => None
    case Some(n) =>
      match n
      case KSymbol(s, _) => Some(ESymbol(s))
      case KAnd(l, r) =>
        (match (Unparse(l), Unparse(r))
         case (Some(a), Some(b)) => Some(EAnd(a, b))
         case _ => None)
      case KOr(l, r) =>
        (match (Unparse(l), Unparse(r))
         case (Some(a), Some(b)) => Some(EOr(a, b))
         case _ => None)
      case KNot(l) =>
        (match Unparse(l)
         case Some(a) => Some(ENot(a))
         case None => None)
      case KEqual(s, v) => Some(EEqual(s, v))
      case KUnequal(s, v) => Some(EUnequal(s, v))
      case _ => None
  }

  /** On comparison-free expressions parse_expr loses nothing: reading the k_expr back gives the input. */
  lemma {:induction false} ParseRoundTrip(h: Config, e: Expr)
    requires OrderFree(e)
    ensures Translatable(h, e)
    ensures Unparse(ParseExpr(h, e)) == Some(e)
  {
    match e
    case EAnd(a, b) => ParseRoundTrip(h, a); ParseRoundTrip(h, b);
    case EOr(a, b) => ParseRoundTrip(h, a); ParseRoundTrip(h, b);
    case ENot(a) => ParseRoundTrip(h, a);
    case _ =>
  }

  // ---------------------------------------------------------------------
  // Desired values

  /** sym_is_sdv: is `sym` among the symbols the user wants to change? */
  method SymIsSdv(arr: seq<SymbolDValue>, sym: Symbol) returns (found: bool)
    ensures found <==> exists i :: 0 <= i < |arr| && arr[i].sym == sym
  {
    var i := 0;
    while i < |arr|
      invariant 0 <= i <= |arr|
      invariant forall j :: 0 <= j < i ==> arr[j].sym != sym
    {
      if arr[i].sym == sym {
        return true;
      }
      i := i + 1;
    }
    return false;
  }

  // ---------------------------------------------------------------------
  // SAT variables

  /** fexpr_create: a node with the given SAT number, kind and name, no symbol, not assumed. */
  function FExprCreate(satval: int, node: FNode, name: string): (f: FExpr)
    ensures f.satval == satval && f.node == node && f.name == name
    ensures f.sym.None? && !f.assumption
  {
    FExpr(name, None, satval, false, node)
  }

  /** get_tmp_var_as_char: the name "T_<i>". */
  function TmpVarName(i: int): (s: string)
    ensures |s| > 2 && s[..2] == "T_"
  {
    "T_" + IntToString(i)
  }

  /** Temporaries with different numbers get different names. */
  lemma TmpVarNamesDistinct(i: int, j: int)
    requires i != j
    ensures TmpVarName(i) != TmpVarName(j)
  {
    if TmpVarName(i) == TmpVarName(j) {
      assert IntToString(i) == TmpVarName(i)[2..];
      assert IntToString(j) == TmpVarName(j)[2..];
      IntToStringInjective(i, j);
    }
  }

  function Abs(k: int): nat
  {
    if k < 0 then -k else k
  }

  /** The fexpr_y/fexpr_m pairs create_constants gives symbol_yes, symbol_mod and symbol_no. */
  function ConstantLiterals(tru: FExpr, fls: FExpr): map<Tristate, (FExpr, FExpr)>
  {
    map t: Tristate | true :: (if ConstPair(t).0 then tru else fls, if ConstPair(t).1 then tru else fls)
  }

  /** The three literal pairs written out one tristate at a time, as create_constants assigns them. */
  lemma ConstantLiteralsDisplay(tru: FExpr, fls: FExpr)
    ensures map[Yes := (tru, fls), Mod := (fls, tru), No := (fls, fls)] == ConstantLiterals(tru, fls)
  {
    var d := map[Yes := (tru, fls), Mod := (fls, tru), No := (fls, fls)];
    assert d.Keys == ConstantLiterals(tru, fls).Keys by {
      forall t: Tristate ensures t in d { match t case Yes => case Mod => case No => }
    }
  }

  /**
   * With distinct true/false constants, each tristate constant's pair of
   * literals reads back as that constant, and none has both literals true.
   */
  lemma ConstantLiteralsDecode(tru: FExpr, fls: FExpr, t: Tristate)
    requires tru != fls
    ensures t in ConstantLiterals(tru, fls)
    ensures var p := ConstantLiterals(tru, fls)[t];
      DecodePair(p.0 == tru, p.1 == tru) == Some(t) && !(p.0 == tru && p.1 == tru)
  {
  }

  /** The tristate constant symbol_yes, symbol_mod or symbol_no. */
  function TristateSymbol(t: Tristate): (s: Symbol)
    ensures IsTristateConstant(s)
  {
    match t
    case Yes => SymbolYes
    case Mod => SymbolMod
    case No => SymbolNo
  }

  /**
   * symbol_yes_fexpr, symbol_mod_fexpr or symbol_no_fexpr: an FE_SYMBOL
   * fexpr with SAT number 0 for the tristate constant, named as that
   * constant is.
   */
  function TristateFExpr(t: Tristate): (f: FExpr)
    ensures f.satval == 0 && f.node == FSymbol(t) && !f.assumption
    ensures f.sym == Some(TristateSymbol(t)) && f.sym.value.name == Some(f.name)
  {
    var name := match t case Yes => "y" case Mod => "m" case No => "n";
    FExprCreate(0, FSymbol(t), name).(sym := Some(TristateSymbol(t)))
  }

  /** Every fexpr in `satmap` sits under its own SAT number, below the counter `nr`. */
  ghost predicate NumberedBelow(satmap: map<int, FExpr>, nr: int)
  {
    forall k :: k in satmap ==> 0 <= k < nr && satmap[k].satval == k
  }

  /** Registering an fexpr under the counter's number keeps the map numbered below the advanced counter. */
  lemma RegisterFresh(satmap: map<int, FExpr>, nr: nat, f: FExpr)
    requires NumberedBelow(satmap, nr) && f.satval == nr
    ensures nr !in satmap
    ensures NumberedBelow(satmap[nr := f], nr + 1)
  {
    var m := satmap[nr := f];
    forall k | k in m
      ensures 0 <= k < nr + 1 && m[k].satval == k
    {
      if k != nr {
        assert k in satmap;
      }
    }
  }

  /**
   * The SAT-variable state of one solving session: the counters
   * `sat_variable_nr` and `tmp_variable_nr`, the map `satmap` from SAT
   * number to fexpr, the constants and the literals of the tristate
   * constants.
   */
  class SatSession {
    var satVariableNr: nat
    var tmpVariableNr: nat
    var satmap: map<int, FExpr>
    var constFalse: Option<FExpr>
    var constTrue: Option<FExpr>
    /** fexpr_y and fexpr_m of symbol_yes, symbol_mod and symbol_no. */
    var constLiterals: map<Tristate, (FExpr, FExpr)>
    /** symbol_yes_fexpr, symbol_mod_fexpr and symbol_no_fexpr. */
    var yesFexpr: Option<FExpr>
    var modFexpr: Option<FExpr>
    var noFexpr: Option<FExpr>

    /** Every registered fexpr sits under its own SAT number, below the counter. */
    ghost predicate Valid()
      reads this`satmap, this`satVariableNr
    {
      NumberedBelow(satmap, satVariableNr)
    }

    /** The counters' start values and an empty satmap (init_data). */
    constructor (firstSatVar: nat, firstTmpVar: nat)
      ensures Valid()
      ensures satVariableNr == firstSatVar && tmpVariableNr == firstTmpVar
      ensures satmap == map[] && constFalse.None? && constTrue.None?
      ensures constLiterals == map[] && yesFexpr.None? && modFexpr.None? && noFexpr.None?
    {
      satVariableNr := firstSatVar;
      tmpVariableNr := firstTmpVar;
      satmap := map[];
      constFalse := None;
      constTrue := None;
      constLiterals := map[];
      yesFexpr := None;
      modFexpr := None;
      noFexpr := None;
    }

    /**
     * The idiom create_constants uses twice: fexpr_create under the next SAT
     * number (post-incrementing the counter), then insertion into satmap
     * under that number, which no registered fexpr used.
     */
    method RegisterNext(node: FNode, name: string) returns (f: FExpr)
      requires Valid()
      modifies this`satVariableNr, this`satmap
      ensures Valid()
      ensures f == FExprCreate(old(satVariableNr), node, name)
      ensures old(satVariableNr) !in old(satmap)
      ensures satVariableNr == old(satVariableNr) + 1
      ensures satmap == old(satmap)[f.satval := f]
    {
      f := FExprCreate(satVariableNr, node, name);
      RegisterFresh(satmap, satVariableNr, f);
      satVariableNr := satVariableNr + 1;
      satmap := satmap[f.satval := f];
    }

    /**
     * create_constants: const_false gets the next SAT number and const_true
     * the one after, both are registered; the tristate constants get their
     * literal pairs; the y/m/n fexprs get SAT number 0 and are not registered.
     */
    method CreateConstants()
      requires Valid()
      modifies this`satVariableNr, this`satmap, this`constFalse, this`constTrue, this`constLiterals,
        this`yesFexpr, this`modFexpr, this`noFexpr
      ensures Valid()
      ensures var n := old(satVariableNr);
        && constFalse == Some(FExprCreate(n, FFalse, "0"))
        && constTrue == Some(FExprCreate(n + 1, FTrue, "1"))
        && satVariableNr == n + 2
        && n !in old(satmap) && n + 1 !in old(satmap)
        && satmap == old(satmap)[n := constFalse.value][n + 1 := constTrue.value]
      ensures tmpVariableNr == old(tmpVariableNr)
      ensures constLiterals == ConstantLiterals(constTrue.value, constFalse.value)
      ensures constTrue.value != constFalse.value
      ensures yesFexpr == Some(TristateFExpr(Yes)) && modFexpr == Some(TristateFExpr(Mod))
        && noFexpr == Some(TristateFExpr(No))
    {
      var f := RegisterNext(FFalse, "0");
      constFalse := Some(f);
      var t := RegisterNext(FTrue, "1");
      constTrue := Some(t);
      AttachConstantFexprs(t, f);
    }

    /**
     * The second half of create_constants: the tristate constants get their
     * literal pairs from const_true and const_false, and the y/m/n fexprs are
     * created.
     */
    method AttachConstantFexprs(t: FExpr, f: FExpr)
      modifies this`constLiterals, this`yesFexpr, this`modFexpr, this`noFexpr
      ensures constLiterals == ConstantLiterals(t, f)
      ensures yesFexpr == Some(TristateFExpr(Yes)) && modFexpr == Some(TristateFExpr(Mod))
        && noFexpr == Some(TristateFExpr(No))
    {
      ConstantLiteralsDisplay(t, f);
      constLiterals := map[Yes := (t, f), Mod := (f, t), No := (f, f)];
      yesFexpr := Some(TristateFExpr(Yes));
      modFexpr := Some(TristateFExpr(Mod));
      noFexpr := Some(TristateFExpr(No));
    }

    /**
     * create_tmpsatvar: a TMPSATVAR under the next SAT number, named after
     * the next temporary number; both counters advance and the new fexpr is
     * registered under a number no earlier fexpr used.
     */
    method CreateTmpSatVar() returns (t: FExpr)
      requires Valid()
      modifies this`satVariableNr, this`tmpVariableNr, this`satmap
      ensures Valid()
      ensures t == FExprCreate(old(satVariableNr), FTmpSatVar, TmpVarName(old(tmpVariableNr)))
      ensures old(satVariableNr) !in old(satmap)
      ensures satVariableNr == old(satVariableNr) + 1 && tmpVariableNr == old(tmpVariableNr) + 1
      ensures satmap == old(satmap)[t.satval := t]
      ensures GetFExprFromSatmap(t.satval) == Some(t) && GetFExprFromSatmap(-t.satval) == Some(t)
    {
      t := FExprCreate(satVariableNr, FTmpSatVar, "");
      t := t.(name := t.name + TmpVarName(tmpVariableNr));
      RegisterFresh(satmap, satVariableNr, t);
      satVariableNr := satVariableNr + 1;
      tmpVariableNr := tmpVariableNr + 1;
      satmap := satmap[t.satval := t];
    }

    /** get_fexpr_from_satmap: lookup by the absolute value of a signed literal; None for NULL. */
    function GetFExprFromSatmap(key: int): (r: Option<FExpr>)
      reads this
      ensures r.Some? <==> Abs(key) in satmap
      ensures r.Some? ==> r.value == satmap[Abs(key)]
      ensures Valid() && r.Some? ==> r.value.satval == Abs(key)
    {
      if Abs(key) in satmap then Some(satmap[Abs(key)]) else None
    }

    /** A literal and its negation resolve to the same fexpr. */
    lemma LookupIgnoresSign(k: int)
      ensures GetFExprFromSatmap(k) == GetFExprFromSatmap(-k)
    {
    }
  }
}

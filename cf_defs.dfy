/**
 * The tagged unions of configfix's cf_defs.h.  Each C struct with a type tag
 * and a union becomes a datatype with one constructor per tag, so a payload
 * can only be read under the tag it belongs to.
 */
module CfDefs {
  import opened Host

  /** `enum kexpr_type`: the eight kinds of k_expr. */
  datatype KExprType =
    KeSymbol | KeAnd | KeOr | KeNot | KeEqual | KeUnequal | KeConstFalse | KeConstTrue

  /**
   * `struct k_expr`.  AND/OR/NOT children are pointers that may be NULL
   * (parse_expr stores NULL for a sub-expression it does not recognise), so
   * they are `Option<KExpr>`; NOT has no right child.
   */
  datatype KExpr =
    | KSymbol(sym: Symbol, tri: Tristate)
    | KAnd(left: Option<KExpr>, right: Option<KExpr>)
    | KOr(left: Option<KExpr>, right: Option<KExpr>)
    | KNot(left: Option<KExpr>)
    | KEqual(eqsym: Symbol, eqvalue: Symbol)
    | KUnequal(eqsym: Symbol, eqvalue: Symbol)
    | KConstFalse
    | KConstTrue
  {
    /** The `type` field of the C struct. */
    function Type(): KExprType
    {
      match this
      case KSymbol(_, _) => KeSymbol
      case KAnd(_, _) => KeAnd
      case KOr(_, _) => KeOr
      case KNot(_) => KeNot
      case KEqual(_, _) => KeEqual
      case KUnequal(_, _) => KeUnequal
      case KConstFalse => KeConstFalse
      case KConstTrue => KeConstTrue
    }
  }

  /** `enum fexpr_type`: the eleven kinds of fexpr. */
  datatype FExprType =
    FeSymbol | FeAnd | FeOr | FeNot | FeEquals | FeTrue | FeFalse
    | FeNonBool | FeChoice | FeSelect | FeTmpSatVar

  /** The tagged part of `struct fexpr`: the type and the union. */
  datatype FNode =
    | FSymbol(tri: Tristate)
    | FAnd(left: FExpr, right: FExpr)
    | FOr(left: FExpr, right: FExpr)
    | FNot(left: FExpr)
    | FEquals(eqsym: Symbol, eqvalue: Symbol)
    | FTrue
    | FFalse
    | FNonBool(nbVal: string)
    | FChoice
    | FSelect
    | FTmpSatVar

  /** `struct fexpr`: the fields every kind carries, and its tagged node. */
  datatype FExpr = FExpr(
    name: string,
    sym: Option<Symbol>,
    satval: int,        // the SAT variable number
    assumption: bool,   // assumed in the last call to the SAT solver
    node: FNode)
  {
    function Type(): FExprType
    {
      match node
      case FSymbol(_) => FeSymbol
      case FAnd(_, _) => FeAnd
      case FOr(_, _) => FeOr
      case FNot(_) => FeNot
      case FEquals(_, _) => FeEquals
      case FTrue => FeTrue
      case FFalse => FeFalse
      case FNonBool(_) => FeNonBool
      case FChoice => FeChoice
      case FSelect => FeSelect
      case FTmpSatVar => FeTmpSatVar
    }
  }

  /** `enum symboldv_type`. */
  datatype SymbolDvType = SdvBooleanType | SdvNonBooleanType

  /**
   * The union of `struct symbol_dvalue`.  A NONBOOLEAN desired value whose
   * string was never set (a symbol of unknown type) has no string.
   */
  datatype DesiredValue = SdvBoolean(tri: Tristate) | SdvNonBoolean(nbVal: Option<string>)

  /** `struct symbol_dvalue`: a symbol and the value the user wants for it. */
  datatype SymbolDValue = SymbolDValue(sym: Symbol, value: DesiredValue)
  {
    function Type(): SymbolDvType
    {
      if value.SdvBoolean? then SdvBooleanType else SdvNonBooleanType
    }
  }

  /** `enum symbolfix_type`. */
  datatype SymbolFixType = SfBooleanType | SfNonBooleanType | SfDisallowedType

  /** The union of `struct symbol_fix`. */
  datatype FixValue =
    | SfBoolean(tri: Tristate)
    | SfNonBoolean(nbVal: string)
    | SfDisallowed(disallowed: string)

  /** `struct symbol_fix`: one change of one symbol in a diagnosis. */
  datatype SymbolFix = SymbolFix(sym: Symbol, value: FixValue)
  {
    function Type(): SymbolFixType
    {
      match value
      case SfBoolean(_) => SfBooleanType
      case SfNonBoolean(_) => SfNonBooleanType
      case SfDisallowed(_) => SfDisallowedType
    }
  }

  /** A diagnosis: the fixes in the order the diagnosis search produced them. */
  type Diagnosis = seq<SymbolFix>
}

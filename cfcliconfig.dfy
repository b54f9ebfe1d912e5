/**
 * The desired-value parser of the command-line front end (cfcliconfig.c):
 * sym_create_sdv turns the string a user typed for a symbol into a
 * `symbol_dvalue`.  The stdin loops around it are not part of this model.
 */
module CfCliConfig {
  import opened Host
  import opened CfDefs
  import opened CfUtils
  import opened Qconf

  /** The tristate named by exactly "y", "m" or "n"; None for any other string. */
  function ParseTristate(input: string): (r: Option<Tristate>)
    ensures r.Some? ==> input == TriLetter(r.value)
  {
    if input == "y" then Some(Yes)
    else if input == "m" then Some(Mod)
    else if input == "n" then Some(No)
    else None
  }

  /** Every tristate letter is parsed back to its tristate. */
  lemma ParseTristateRoundTrip(t: Tristate)
    ensures ParseTristate(TriLetter(t)) == Some(t)
  {
    match t
    case No =>
      assert TriLetter(t) != "y" && TriLetter(t) != "m" by { assert TriLetter(t)[0] == 'n'; }
    case Mod =>
      assert TriLetter(t) != "y" by { assert TriLetter(t)[0] == 'm'; }
    case Yes =>
  }

  /** The error message sym_create_sdv reports for a bad tristate string. */
  const NotATristate: string := "Not a valid tristate value."

  /**
   * sym_create_sdv.  A bool or tristate symbol gets the BOOLEAN tag and the
   * tristate its string names, mod turned into yes for a bool symbol; any
   * other string is an error.  An int, hex or string symbol gets the input
   * verbatim; a symbol of any other type gets the NONBOOLEAN tag and no
   * string.
   */
  function SymCreateSdv(sym: Symbol, input: string): (r: Result<SymbolDValue, string>)
    ensures r.Err? <==> SymIsBoolean(sym) && ParseTristate(input).None?
    ensures r.Err? ==> r.error == NotATristate
    ensures r.Ok? ==> r.value.sym == sym
    ensures r.Ok? ==> (r.value.Type() == SdvBooleanType <==> SymIsBoolean(sym))
    ensures r.Ok? && sym.stype == SBoolean ==> r.value.value.tri != Mod
    ensures r.Ok? && sym.stype == STristate ==> Some(r.value.value.tri) == ParseTristate(input)
    ensures r.Ok? && SymIsNonboolean(sym) ==> r.value.value.nbVal == Some(input)
    ensures r.Ok? && !SymIsBoolean(sym) && !SymIsNonboolean(sym) ==> r.value.value.nbVal.None?
  {
    if SymIsBoolean(sym) then
      match ParseTristate(input)
      case None => Err(NotATristate)
      case Some(t) =>
        var tri := if sym.stype == SBoolean && t == Mod then Yes else t;
        Ok(SymbolDValue(sym, SdvBoolean(tri)))
    else if SymIsNonboolean(sym) then
      Ok(SymbolDValue(sym, SdvNonBoolean(Some(input))))
    else
      Ok(SymbolDValue(sym, SdvNonBoolean(None)))
  }

  /** The string a desired value was typed as: its letter, or its stored string. */
  function DesiredValueString(dv: DesiredValue): (r: Option<string>)
    ensures dv.SdvBoolean? ==> r == Some(TriLetter(dv.tri))
    ensures dv.SdvNonBoolean? ==> r == dv.nbVal
  {
    match dv
    case SdvBoolean(t) => Some(TriLetter(t))
    case SdvNonBoolean(v) => v
  }

  /** A bool symbol's accepted strings: "n" gives no, "m" and "y" give yes. */
  lemma BoolSanitised(sym: Symbol, input: string)
    requires sym.stype == SBoolean && ParseTristate(input).Some?
    ensures SymCreateSdv(sym, input) == Ok(SymbolDValue(sym, SdvBoolean(if input == "n" then No else Yes)))
  {
    var t := ParseTristate(input).value;
    if t == No {
      assert input == "n";
    } else {
      assert input != "n" by {
        assert input == TriLetter(t);
        assert input[0] != 'n';
      }
    }
  }

  /**
   * The mod-to-yes sanitising tests the declared type: a tristate that
   * sym_get_type reports as bool because modules are off keeps mod.
   */
  lemma DeclaredTypeDecidesSanitising(h: Config, sym: Symbol)
    requires sym.stype == STristate && h.modulesVal == No
    ensures SymGetType(h, sym) == SBoolean
    ensures SymCreateSdv(sym, "m") == Ok(SymbolDValue(sym, SdvBoolean(Mod)))
  {
    ParseTristateRoundTrip(Mod);
  }

  /**
   * Parsing is stable: typing back what a parsed desired value renders to
   * gives the same desired value.
   */
  lemma DesiredValueRoundTrip(sym: Symbol, input: string)
    requires SymCreateSdv(sym, input).Ok?
    requires DesiredValueString(SymCreateSdv(sym, input).value.value).Some?
    ensures SymCreateSdv(sym, DesiredValueString(SymCreateSdv(sym, input).value.value).value) == SymCreateSdv(sym, input)
  {
    var dv := SymCreateSdv(sym, input).value.value;
    if SymIsBoolean(sym) {
      ParseTristateRoundTrip(dv.tri);
    }
  }

  /**
   * A fix that a diagnosis proposes can be typed back in: the string
   * sym_fix_get_string_value renders for a boolean or non-boolean fix of a
   * symbol of the matching kind parses to the same value, except a mod fix
   * of a bool symbol, which is turned into yes.
   */
  lemma FixValueTypedBack(fix: SymbolFix)
    requires fix.value.SfBoolean? ==> SymIsBoolean(fix.sym) && !(fix.sym.stype == SBoolean && fix.value.tri == Mod)
    requires fix.value.SfNonBoolean? ==> SymIsNonboolean(fix.sym)
    requires !fix.value.SfDisallowed?
    ensures SymCreateSdv(fix.sym, SymFixGetStringValue(fix).value)
            == Ok(SymbolDValue(fix.sym, if fix.value.SfBoolean? then SdvBoolean(fix.value.tri)
                                        else SdvNonBoolean(Some(fix.value.nbVal))))
  {
    if fix.value.SfBoolean? {
      ParseTristateRoundTrip(fix.value.tri);
    } else {
      TypeClasses(fix.sym);
    }
  }
}

# configfix conflict resolver: a Dafny model of its edges

configfix extends kconfig so that it can suggest fixes for configuration
conflicts. A symbol the user wants to set may be blocked by its
dependencies. configfix then translates the kconfig dependency expressions
into propositional formulas, hands them to a SAT solver, and shows the
resulting diagnoses in the Qt front end (qconf) or reads desired values on
the command line (cfcliconfig). A diagnosis is a list of symbol fixes.

This project models the parts of that pipeline that sit around the SAT
engine:

- **`Host`** (host.dfy): the kconfig symbol and expression data that the
  core reads. A symbol carries its declared type (`sym->type`); the
  effective type `sym_get_type`, which demotes a tristate to bool for a
  visible choice value or when modules are off, is the host query
  `SymGetType`. The other host queries are functions of an abstract
  configuration too: current tristate and string values, the allowed range,
  prompts and `expr_contains_symbol`.
- **`CText`** (ctext.dfy): the C library calls the core relies on, namely
  `strtol`/`atoi`, `strtoll`, `%d` and `%.2d` rendering, and the first
  `strtok` token. It also proves their round trips.
- **`CfDefs`** (cf_defs.dfy): the tagged unions of `cf_defs.h` as
  datatypes. These are `k_expr` with its eight kinds, `fexpr` with its
  eleven kinds, `symbol_dvalue` and `symbol_fix`. A payload exists only
  under its own tag, and a NOT node has no right child.
- **`CfUtils`** (cf_utils.dfy): the translator from kconfig expressions to
  `k_expr` (`parse_expr` with its folding of ordering comparisons) and
  `can_evaluate_to_mod`. It also holds the SAT-variable bookkeeping as a
  `SatSession` class. That class covers the counters, `satmap`,
  `create_constants`, `create_tmpsatvar` and `get_fexpr_from_satmap`.
- **`Qconf`** (qconf.dfy): the non-GUI helpers of the current qconf.cc.
  These are:
  - HTML escaping and option-mode filtering;
  - rendering and finding fixes, and permuting a diagnosis;
  - configuration snapshot and compare;
  - blocked-value counting;
  - fix verification;
  - the numbering of conflict directories.
  Helpers that the older copy code/scripts/kconfig/qconf.cc shares unchanged
  are modelled once, here.
- **`CfCliConfig`** (cfcliconfig.dfy): `sym_create_sdv`, the desired-value
  parser of the command-line front end.
- **`QconfOld`** (qconf_old.dfy): the members only the older qconf.cc has.
  These are the option-mode switch, the global view list,
  `get_config_dir` and `fixup_rootmenu`.

State that the C code changes in place is modelled as Dafny classes:
- the SAT counters and map become `SatSession`;
- a list's option mode becomes `ConfigList`;
- the global view list becomes `ViewRegistry`;
- the configuration-name buffer becomes `ConfigNameBuffer`;
- the static `menu_cnt` becomes `RootMenuFixer`.

Each of the loops in `print_filter`, `get_symbol_fix`,
`rearrange_diagnosis`, `config_backup`, `config_compare`,
`random_blocked_value`, `verify_fix_target_values`, the conflict numbering
and the view-list unlink is a method. Each such method is proved against a
specification function. The properties are proved about that function.

## Model

| member | source | states |
|---|---|---|
| CfUtils.TypeClasses | scripts/kconfig/cf_utils.c:342-368 | `is_tristate_constant`, `sym_is_boolean`, `sym_is_bool_or_triconst` and `sym_is_nonboolean` read the declared type: no symbol is both bool/tristate and int/hex/string; the constants y/m/n are neither; `sym_is_bool_or_triconst` is exactly the constants plus bool and tristate symbols |
| CfUtils.TypeClassesUnderGetType | scripts/kconfig/cf_utils.c:349-368 | the declared-type predicates agree with the effective type: `sym_is_boolean` holds exactly when `sym_get_type` is bool or tristate, `sym_is_nonboolean` exactly when it is int, hex or string, and an effective tristate was declared tristate |
| CfUtils.SymGetName | scripts/kconfig/cf_utils.c:415-424 | every symbol kconfig can hold (only choices are nameless, and every choice has a prompt) gets a name; a named result is the prompt text for a choice and the symbol's own name otherwise; NULL means a prompt-less choice or a nameless non-choice |
| CfUtils.SymFindThenGetName | scripts/kconfig/cf_utils.c:415-424 | a non-choice symbol found by name in a table keyed by name is named by that name again |
| CfUtils.CanEvaluateToMod | scripts/kconfig/cf_utils.c:162-182 | true exactly when some symbol leaf under AND/OR/NOT is the constant mod or a symbol declared tristate |
| CfUtils.TristateGetChar | scripts/kconfig/cf_utils.c:145-157 | the result is empty exactly for a value outside the enum; no/mod/yes render as words starting with n/m/y |
| CfUtils.TristateNamesDistinct | scripts/kconfig/cf_utils.c:145-157 | distinct tristates render to distinct words |
| CfUtils.ConstPair | scripts/kconfig/cf_utils.c:94-101 | the constants' literal pairs: the y-literal is true exactly for yes, the m-literal exactly for mod, never both |
| CfUtils.EncodingRoundTrip | scripts/kconfig/cf_utils.c:94-101 | the two-literal encoding of y/m/n and its decoding are inverse; the pair (true, true) encodes no value |
| CfUtils.ConstantLiteralsDecode | scripts/kconfig/cf_utils.c:94-101 | with `const_true` distinct from `const_false`, the fexpr pair each constant symbol gets decodes back to that constant |
| CfUtils.ConstantLiteralsDisplay | scripts/kconfig/cf_utils.c:92-101 | the six field assignments give each constant symbol the pair (y-literal, m-literal) of its encoding |
| CfUtils.CannotEvaluateToModSound | scripts/kconfig/cf_utils.c:162-182 | when `can_evaluate_to_mod` says no, the expression evaluates to no or yes under every valuation that gives only tristate symbols mod |
| CfUtils.GccVersionEval | scripts/kconfig/cf_utils.c:218-248 | a comparison with `GCC_VERSION` folds to a constant |
| CfUtils.ExprEvalUnequalBool | scripts/kconfig/cf_utils.c:250-274 | a comparison of two bool/tristate symbols folds to a constant |
| CfUtils.FoldCompare | scripts/kconfig/cf_utils.c:318-333 | every ordering comparison parse_expr accepts becomes constant true or false |
| CfUtils.ParseExpr | scripts/kconfig/cf_utils.c:280-337 | the result is NULL exactly when the expression's own kind is one parse_expr does not handle (none, list, range); an unhandled sub-expression becomes a NULL child |
| CfUtils.OrderingFoldsToConstant | scripts/kconfig/cf_utils.c:218-274 | a comparison with `GCC_VERSION` is true iff the actual version relates to the literal by the operator; otherwise it is true iff both `CRAMFS` and `MTD` are mentioned and their current values relate in the order no<mod<yes |
| CfUtils.GccRightOperandNotMirrored | scripts/kconfig/cf_utils.c:218-248 | with `GCC_VERSION` on the right, `lit <= GCC_VERSION` is still evaluated as actual <= literal, so it folds to false when the actual version is larger |
| CfUtils.ParseLeavesAreNo | scripts/kconfig/cf_utils.c:280-317 | every symbol leaf parse_expr builds carries the tristate no |
| CfUtils.ParseRoundTrip | scripts/kconfig/cf_utils.c:280-317 | on expressions without ordering comparisons the translation is structural: AND/OR/NOT/EQUAL/UNEQUAL and symbols map back to the original expression |
| CfUtils.SymIsSdv | scripts/kconfig/cf_utils.c:429-441 | true exactly when some desired value in the array is for this symbol |
| CfUtils.TmpVarName | scripts/kconfig/cf_utils.c:135-140 | a temporary's name is `T_` followed by its number |
| CfUtils.TmpVarNamesDistinct | scripts/kconfig/cf_utils.c:135-140 | distinct numbers give distinct temporary names |
| CfUtils.TristateFExpr | scripts/kconfig/cf_utils.c:103-114 | the y/m/n fexpr is an FE_SYMBOL of that tristate with SAT number 0, not assumed, pointing at its constant symbol and named as that symbol is |
| CfUtils.RegisterFresh | scripts/kconfig/cf_utils.c:86-90 | the counter's number is not yet in `satmap`, and after inserting under it every registered fexpr still sits under its own number, below the advanced counter |
| CfUtils.SatSession.RegisterNext | scripts/kconfig/cf_utils.c:86-90 | the post-incremented counter numbers a new fexpr of the given kind and name, which is inserted under that fresh number and nothing else changes |
| CfUtils.SatSession.CreateConstants | scripts/kconfig/cf_utils.c:82-117 | `const_false` gets number n and `const_true` n+1, both fresh in `satmap` and registered there; the counter advances by 2; the constant symbols get the (y, m) literal pairs; the y/m/n fexprs have satval 0 and are not registered |
| CfUtils.SatSession.AttachConstantFexprs | scripts/kconfig/cf_utils.c:92-114 | the constant symbols get the literal pairs of their encoding and the y/m/n fexprs are created |
| CfUtils.SatSession.CreateTmpSatVar | scripts/kconfig/cf_utils.c:122-131 | the temporary gets the old counter as its fresh SAT number and the name `T_<old tmp counter>`; both counters advance by one; `satmap` gains exactly that entry, found under both signs |
| CfUtils.SatSession.GetFExprFromSatmap | scripts/kconfig/cf_utils.c:208-213 | the lookup succeeds exactly when the absolute value of the key is in `satmap`, and yields the fexpr whose satval is that number |
| CfUtils.SatSession.LookupIgnoresSign | scripts/kconfig/cf_utils.c:208-213 | a literal and its negation resolve to the same fexpr |
| CfCliConfig.SymCreateSdv | scripts/kconfig/cfcliconfig.c:89-114 | the tag is BOOLEAN exactly for symbols declared bool or tristate; only "y", "m" and "n" are accepted for them, anything else is the error "Not a valid tristate value."; a symbol declared bool never gets mod (the test reads the declared type, not `sym_get_type`); a symbol declared tristate gets the named tristate; int/hex/string symbols keep the input verbatim; other symbols get no string |
| CfCliConfig.ParseTristate | scripts/kconfig/cfcliconfig.c:95-103 | an accepted string is exactly the letter of the tristate it yields |
| CfCliConfig.ParseTristateRoundTrip | scripts/kconfig/cfcliconfig.c:95-101 | each tristate letter parses back to its tristate |
| CfCliConfig.DeclaredTypeDecidesSanitising | scripts/kconfig/cfcliconfig.c:105-107 | a symbol declared tristate keeps "m" as mod even when modules are off and `sym_get_type` reports bool |
| CfCliConfig.BoolSanitised | scripts/kconfig/cfcliconfig.c:105-107 | for a bool symbol, "n" gives no and both "m" and "y" give yes |
| CfCliConfig.DesiredValueRoundTrip | scripts/kconfig/cfcliconfig.c:89-114 | typing back the string a parsed desired value renders to gives the same desired value |
| CfCliConfig.FixValueTypedBack | scripts/kconfig/cfcliconfig.c:89-114 | the string `sym_fix_get_string_value` renders for a fix of a matching symbol parses back to the fix's value, except a mod fix of a bool symbol |
| Qconf.Entity | scripts/kconfig/qconf.cc:3170-3199 | a special character becomes an entity starting with `&` or the `<br>` tag; any other character is kept |
| Qconf.EscapedAppend | scripts/kconfig/qconf.cc:3170-3199 | escaping works character by character: escaping a concatenation concatenates the escapes |
| Qconf.EscapedPlain | scripts/kconfig/qconf.cc:3170-3199 | text without special characters is unchanged |
| Qconf.IndexOfSpecial | scripts/kconfig/qconf.cc:3172-3174 | the search returns the first special character at or after the start, or -1 when there is none |
| Qconf.PrintFilter | scripts/kconfig/qconf.cc:3170-3199 | the in-place rewrite loop, which skips each inserted entity, yields the per-character escape of the input |
| Qconf.PrintFilterStep | scripts/kconfig/qconf.cc:3174-3196 | the special character found is the first one of the unescaped rest, and replacing it by its entity extends the escaped prefix past it, with the scan resuming right after the entity |
| Qconf.UnescapeEscaped | scripts/kconfig/qconf.cc:3170-3199 | escaping loses nothing: decoding the entities gives back the input, so inserted entities are never escaped again |
| Qconf.UnescapeStep | scripts/kconfig/qconf.cc:3170-3199 | an entity followed by any text decodes to its character followed by the decoding of that text |
| Qconf.EscapedHasNoQuoteOrNewline | scripts/kconfig/qconf.cc:3170-3199 | the output contains no `"` and no newline |
| Qconf.ConfigList.MenuSkip | scripts/kconfig/qconf.cc:403-412 | an entry is shown exactly in all mode, in normal mode when visible, or in prompt mode when it has a prompt |
| Qconf.ConfigList.ShownEntries | code/scripts/kconfig/qconf.cc:385-394 | a visible entry with a prompt is shown in every mode, and all mode skips nothing |
| Qconf.SymFixGetStringValue | scripts/kconfig/qconf.cc:2342-2358 | a boolean fix renders as n/m/y, a non-boolean fix as its string, a disallowed fix as NULL |
| Qconf.TriLetterInjective | scripts/kconfig/qconf.cc:2342-2358 | the rendering of a boolean fix determines its tristate |
| Qconf.GetSymbolFix | scripts/kconfig/qconf.cc:2310-2337 | the first fix in diagnosis order whose symbol has the same non-NULL name; NULL exactly when no fix matches, and always for a nameless symbol |
| Qconf.RangeMembers | scripts/kconfig/qconf.cc:2639-2658 | the identity index array 0..n-1 contains exactly the numbers below n |
| Qconf.PickPermutation | code/scripts/kconfig/qconf.cc:2137-2156 | picking by a permutation of the positions yields a permutation of the diagnosis |
| Qconf.RearrangeDiagnosis | scripts/kconfig/qconf.cc:2639-2658 | same length, `diag[fix_idxs[i]]` at position i, and a permutation of the diagnosis when the indices are a permutation |
| Qconf.ConfigBackup | scripts/kconfig/qconf.cc:2182-2222 | the snapshot maps the name of every non-UNKNOWN symbol to its current string value, with later symbols overwriting earlier ones |
| Qconf.ConfigCompare | scripts/kconfig/qconf.cc:2229-2280 | the result is the number of non-UNKNOWN symbols whose current value differs from the snapshot's value |
| Qconf.BackedIsKnownType | scripts/kconfig/qconf.cc:2200-2203 | `sym_get_type` is UNKNOWN exactly when the declared type is, so the snapshot skips the same symbols whichever type is read |
| Qconf.NamedWhenNameable | scripts/kconfig/qconf.cc:2205-2216 | every symbol kconfig can hold has a non-NULL name to serve as snapshot key |
| Qconf.CompareZeroIff | code/scripts/kconfig/qconf.cc:1858-1909 | the count is 0 exactly when no symbol mismatches |
| Qconf.BackupHolds | scripts/kconfig/qconf.cc:2182-2222 | every non-UNKNOWN symbol's name is in the snapshot, with its value when names determine values |
| Qconf.BackupThenCompare | scripts/kconfig/qconf.cc:2182-2280 | comparing right after a backup gives 0 when symbols of equal name have equal values |
| Qconf.BackupThenCompareDuplicate | scripts/kconfig/qconf.cc:2182-2280 | two backed symbols with one name and different values make the count positive even right after a backup |
| Qconf.MissingKeyPlaceholder | scripts/kconfig/qconf.cc:2255-2257 | a name missing from the snapshot is compared against the placeholder "symbol backup missing", so it mismatches exactly when the value differs from that text |
| Qconf.SymHasBlockedValues | scripts/kconfig/qconf.cc:2915-2935 | the count is between 0 and 3, 0 for non-boolean symbols, and at most 2 for bool symbols |
| Qconf.BlockedValuesCount | scripts/kconfig/qconf.cc:2915-2935 | the count is the number of blocked tristate values: no out of range, mod out of range for a tristate, yes out of range unless the dependency mentions mod |
| Qconf.BlockedSetParts | scripts/kconfig/qconf.cc:2915-2935 | for a bool or tristate symbol the blocked values are the union of the three per-value tests |
| Qconf.SymHasConflict | scripts/kconfig/qconf.cc:2894-2908 | a conflict needs a prompted, non-choice bool or tristate symbol |
| Qconf.ConflictMeansBlocked | scripts/kconfig/qconf.cc:2894-2908 | a symbol is in conflict exactly when it is prompted, bool/tristate, not a choice, and has a blocked value |
| Qconf.RandomBlockedValue | scripts/kconfig/qconf.cc:2941-2987 | the result is one of the blocked values that differ from the current value whenever there is one, `no` when there is none, and the pick chooses between no and yes when both are candidates |
| Qconf.CandidatesAreBlocked | scripts/kconfig/qconf.cc:2941-2987 | the candidates are exactly the blocked values other than the current value |
| Qconf.VerifyFixTargetValues | scripts/kconfig/qconf.cc:1977-2007 | true exactly when every fix's symbol has reached the fix's value |
| Qconf.FixReachedAsText | scripts/kconfig/qconf.cc:1977-2007 | a fix is reached exactly when its rendering equals the rendering of the symbol's current value |
| Qconf.NextNumberStep | scripts/kconfig/qconf.cc:2833-2844 | one directory entry keeps the candidate one above the largest number seen |
| Qconf.NumberingStep | scripts/kconfig/qconf.cc:2833-2845 | one readdir iteration keeps the candidate the next number of the entries read so far |
| Qconf.NextNumberUnique | scripts/kconfig/qconf.cc:2830-2845 | the next number is determined by the numbers in use |
| Qconf.StrtokAfterPrefix | scripts/kconfig/qconf.cc:2839 | strtok with the characters of "conflict." as delimiters skips the prefix and returns the delimiter-free rest |
| CText.StartsWithPrefix | scripts/kconfig/qconf.cc:2837 | the strncmp prefix test holds exactly when "conflict." is a prefix of the name |
| Qconf.NextConflictNumber | scripts/kconfig/qconf.cc:2830-2852 | the next number is one more than the largest number of any `conflict.*` directory, and 1 when there is none |
| Qconf.GetConflictDir | scripts/kconfig/qconf.cc:2818-2853 | the new directory is `<config dir>conflict.<nn>` for the next number of the entries read |
| Qconf.ConflictNumberRoundTrip | scripts/kconfig/qconf.cc:2849-2852 | the directory `conflict.<nn>` created for number n reads back as n |
| Qconf.NextNumberAdvances | scripts/kconfig/qconf.cc:2830-2852 | after the new directory is created the next number is one higher, so numbers are never reused |
| QconfOld.ConfigView.SetOptionMode | code/scripts/kconfig/qconf.cc:1000-1010 | the normal action selects normal mode, the all action all mode and anything else prompt mode; the resulting filter is stated per mode; nothing else changes |
| QconfOld.RemoveFirstAt | code/scripts/kconfig/qconf.cc:988-998 | unlinking removes exactly the first occurrence of the view and keeps the others in order |
| QconfOld.RemoveFirstAbsent | code/scripts/kconfig/qconf.cc:988-998 | a list without the view is left unchanged |
| QconfOld.RemoveFirstMultiset | code/scripts/kconfig/qconf.cc:988-998 | exactly one occurrence of the view leaves the list, and only if there is one |
| QconfOld.RegisterThenRemove | code/scripts/kconfig/qconf.cc:976-998 | a view that is constructed and then destroyed leaves the list as it was |
| QconfOld.ViewRegistry.Register | code/scripts/kconfig/qconf.cc:978-979 | construction links the new view in at the head of the list |
| QconfOld.ViewRegistry.Unlink | code/scripts/kconfig/qconf.cc:988-998 | the pointer-to-pointer walk leaves the list without its first occurrence of the view |
| QconfOld.LastSlash | code/scripts/kconfig/qconf.cc:2207-2209 | the position of the last `/`, or none when there is no slash |
| QconfOld.ConfigDir | code/scripts/kconfig/qconf.cc:2204-2214 | the directory ends in `/`: it is the name up to its last slash, or "./" |
| QconfOld.ConfigNameBuffer.GetConfigDir | code/scripts/kconfig/qconf.cc:2204-2214 | the returned directory, with the shared name buffer truncated after its last slash when it has one |
| QconfOld.ConfigDirStable | code/scripts/kconfig/qconf.cc:2204-2214 | the truncated buffer yields the same directory again, so a second call returns the same result |
| QconfOld.RootMenuFixer.FixupRootmenu | code/scripts/kconfig/qconf.cc:3117-3131 | the recursion computes the fixed tree, and the static `menu_cnt` is balanced on return |
| QconfOld.FixupKeepsShape | code/scripts/kconfig/qconf.cc:3117-3131 | only MENU_ROOT flags change: entries, prompts and order are kept |
| QconfOld.FixupMarksMenus | code/scripts/kconfig/qconf.cc:3117-3131 | the argument and every P_MENU entry reached through P_MENU children are marked, whatever the count |
| QconfOld.FixupMarksAll | code/scripts/kconfig/qconf.cc:3117-3131 | with the count at 0 and no P_MENU entries below, every entry is marked |
| QconfOld.FixupIdempotent | code/scripts/kconfig/qconf.cc:3117-3131 | fixing a tree twice with the same count is the same as fixing it once |

## Left out

- The Qt GUI is not modelled. This covers every widget, event handler, layout and settings routine in both qconf.cc files, and the `updateListAll` repaint after setOptionMode.
- File and console I/O is not modelled: saving conflicts and diagnoses, the stdin loops of cfcliconfig, `conf_read`/`conf_write`, and `init_config`/`init_data`. The opendir/readdir walk of get_conflict_dir is modelled as the sequence of directory entries it yields. The NULL result when the directory cannot be opened is not modelled.
- The older copy's `get_conflict_dir` is a printing stub that returns 0, so it is not modelled.
- `rand()` in random_blocked_value is the parameter `pick`. The clock-based timing in calculateFixes is not modelled.
- The CNF/Tseytin compiler, the PicoSAT adapter and the RangeFix diagnosis search are opaque and not part of this model. `fexpr_create` is declared elsewhere; it is modelled as setting only the number, kind and name.
- kconfig's symbol.c, expr.c and menu.c are not part of this model. Their queries are functions of an abstract configuration.
- Allocation, freeing and leaks are not modelled, nor the `parent` back-links of `k_expr`. A tree value has no parent pointer, and a child's parent is the node that contains it.
- C integer widths are not modelled. SAT numbers and counters are unbounded, and `atoi` is modelled without overflow.
- `strtoll` saturates to the range of `long long`, as written.
- Pointer identity of symbols and views is modelled as value or reference equality. Union aliasing is not modelled, except where fix verification reads the string member of a fix through either tag (`FixString`).
- The `for_all_fixes` macros are loops over the diagnosis sequence. NULL entries are not modelled.
- The menu tree of fixup_rootmenu is a value tree, and the method returns the updated tree. The model therefore does not capture the in-place update of `menu->flags` through aliased pointers.
- The missing `return` after the NULL checks of gcc_version_eval and expr_eval_unequal_bool is not modelled. Callers always pass a comparison.
- sym_create_sdv reads the uninitialised `tri` field after reporting an invalid tristate. That path is modelled as an error result.
- rearrange_diagnosis indexes the diagnosis with `fix_idxs` unchecked. RearrangeDiagnosis therefore requires the indices to be in range.
- CfUtils.ParseExpr: requires `Translatable`. This excludes the two crash paths of parse_expr's comparison branch: a CRAMFS/MTD comparison with an operand that is not bool or tristate fails the asserts at cf_utils.c:254-255, and a nameless literal compared with `GCC_VERSION` makes strtoll read a NULL name at cf_utils.c:225/228. The same requires sits on CfUtils.ParseLeavesAreNo.
- CfUtils.FoldCompare: requires `CompareTranslatable`, for the same two crash paths; so does CfUtils.OrderingFoldsToConstant.
- CfUtils.GccVersionEval: requires `GccOperandsNamed`, which excludes the NULL name strtoll would read at cf_utils.c:225/228.
- CfUtils.ExprEvalUnequalBool: requires both operands to be bool or tristate, which excludes the assert failure at cf_utils.c:254-255.
- Qconf.ConfigBackup: requires `Named`. A backed symbol without a name would make `sym_get_name` return NULL as a hash key, or fail its assert for a prompt-less choice. `Qconf.NamedWhenNameable` shows the requires holds for every symbol kconfig can hold. Qconf.ConfigCompare and the lemmas about both carry the same requires.
- Qconf.VerifyFixTargetValues: requires `FixTagMatches`: every fix carries the value kind of its symbol's type class. This excludes, for example, an SF_DISALLOWED fix on a bool symbol, for which the C reads `fix->tri` through the union; what those bits would hold is not modelled.
- The `t` field of `struct k_expr` (cf_defs.h:43), the temporary SAT variable, is not modelled. parse_expr never sets it; it belongs to the CNF compiler, which is not part of this model.
- Qconf.RandomBlockedValue: only the candidates no and yes are tied to `pick`. For other pairs the contract says only that the result is one of the candidates.

## Notes on the code as written

- gcc_version_eval always compares the actual `GCC_VERSION` value (left of the operator) against the literal, even when `GCC_VERSION` is the right operand. A comparison such as `400 <= GCC_VERSION` is therefore evaluated as `actual <= 400`. This is modelled as written, and `CfUtils.GccRightOperandNotMirrored` states it.
- config_compare does not count a name that is missing from the snapshot as a mismatch unconditionally. It compares the current value with the placeholder string "symbol backup missing", and `Qconf.MissingKeyPlaceholder` states this.
- Right after config_backup, config_compare can be non-zero when two symbols share a name but have different values, because the later one overwrites the earlier in the snapshot. `Qconf.BackupThenCompareDuplicate` states this.

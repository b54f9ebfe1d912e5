/**
 * The non-GUI logic of qconf.cc that the configfix front end adds: HTML
 * escaping, option-mode filtering, rendering and looking up the fixes of a
 * diagnosis, permuting a diagnosis, snapshotting and comparing the
 * configuration, the blocked values of a symbol, and the numbering of
 * saved conflicts.  Both copies of qconf.cc implement these identically;
 * the members below model both.
 */
module Qconf {
  import opened Host
  import opened CText
  import opened CfDefs
  import opened CfUtils

  // ---------------------------------------------------------------------
  // ConfigInfoView::print_filter

  /** The characters of the regular expression `[<>&"\n]`. */
  predicate IsSpecial(c: char)
  {
    c == '<' || c == '>' || c == '&' || c == '"' || c == '\n'
  }

  /** What print_filter puts in place of one character. */
  function Entity(c: char): (s: string)
    ensures IsSpecial(c) ==> |s| >= 4 && (s[0] == '&' || s[..4] == "<br>")
    ensures !IsSpecial(c) ==> s == [c]
  {
    match c
    case '<' => "&lt;"
    case '>' => "&gt;"
    case '&' => "&amp;"
    case '"' => "&quot;"
    case '\n' => "<br>"
    case _ => [c]
  }

  /** The per-character escaping of a whole string. */
  function Escaped(s: string): string
  {
    if s == [] then [] else Entity(s[0]) + Escaped(s[1..])
  }

  lemma {:induction false} EscapedAppend(a: string, b: string)
    ensures Escaped(a + b) == Escaped(a) + Escaped(b)
  {
    if a == [] {
      assert a + b == b;
    } else {
      assert (a + b)[0] == a[0] && (a + b)[1..] == a[1..] + b;
      EscapedAppend(a[1..], b);
    }
  }

  lemma {:induction false} EscapedPlain(s: string)
    requires forall i :: 0 <= i < |s| ==> !IsSpecial(s[i])
    ensures Escaped(s) == s
  {
    if s != [] {
      EscapedPlain(s[1..]);
    }
  }

  /**
   * `QString::indexOf` with that regular expression: the first position at
   * or after `from` that holds a special character, -1 if there is none.
   */
  function IndexOfSpecial(s: string, from: nat): (r: int)
    ensures r == -1 || from <= r < |s|
    ensures r == -1 ==> forall j :: from <= j < |s| ==> !IsSpecial(s[j])
    ensures r >= 0 ==> IsSpecial(s[r]) && forall j :: from <= j < r ==> !IsSpecial(s[j])
    decreases |s| - from
  {
    if from >= |s| then -1
    else if IsSpecial(s[from]) then from
    else IndexOfSpecial(s, from + 1)
  }

  /**
   * print_filter: replaces each special character of `res` in place by its
   * entity and resumes the scan after the entity, so inserted text is never
   * escaped again.
   */
  method PrintFilter(str: string) returns (res: string)
    ensures res == Escaped(str)
  {
    res := str;
    ghost var done: string := [];
    ghost var rest: string := str;
    var i := IndexOfSpecial(res, 0);
    while i >= 0
      invariant str == done + rest
      invariant res == Escaped(done) + rest
      invariant i == IndexOfSpecial(res, |Escaped(done)|)
      decreases |rest|
    {
      ghost var n := PrintFilterStep(str, done, rest, res, i);
      var e := Entity(res[i]);
      res := res[..i] + e + res[i + 1..];
      i := i + |e|;
      done, rest := done + rest[..n + 1], rest[n + 1..];
      i := IndexOfSpecial(res, i);
    }
    PrintFilterDone(done, rest, res);
  }

  /**
   * One replacement of print_filter: the special character found at `i`
   * is the one at position `n` of the unescaped rest, and replacing it
   * moves that stretch of the input, up to and including position `n`,
   * into the escaped prefix.
   */
  lemma PrintFilterStep(str: string, done: string, rest: string, res: string, i: int) returns (n: nat)
    requires str == done + rest
    requires res == Escaped(done) + rest
    requires i >= 0 && i == IndexOfSpecial(res, |Escaped(done)|)
    ensures n < |rest|
    ensures str == (done + rest[..n + 1]) + rest[n + 1..]
    ensures res[..i] + Entity(res[i]) + res[i + 1..] == Escaped(done + rest[..n + 1]) + rest[n + 1..]
    ensures i + |Entity(res[i])| == |Escaped(done + rest[..n + 1])|
  {
    n := ScanPlain(done, rest, res, i);
    EscapeOne(done, rest, n);
    SplitAfter(done, rest, n);
  }

  /** Moving a prefix of the rest into the done part keeps their concatenation. */
  lemma SplitAfter(done: string, rest: string, n: nat)
    requires n < |rest|
    ensures done + rest == (done + rest[..n + 1]) + rest[n + 1..]
  {
    assert rest == rest[..n + 1] + rest[n + 1..];
  }

  /** The position found by the scan, read in the unescaped rest of the input. */
  lemma ScanPlain(done: string, rest: string, res: string, i: int) returns (n: nat)
    requires res == Escaped(done) + rest
    requires i >= 0 && i == IndexOfSpecial(res, |Escaped(done)|)
    ensures n == i - |Escaped(done)| && n < |rest| && rest[n] == res[i]
    ensures forall j :: 0 <= j < n ==> !IsSpecial(rest[j])
    ensures res[..i] == Escaped(done) + rest[..n]
    ensures res[i + 1..] == rest[n + 1..]
  {
    var p := |Escaped(done)|;
    n := i - p;
    assert res[p..] == rest;
    forall j | 0 <= j < n
      ensures !IsSpecial(rest[j])
    {
      assert rest[j] == res[p + j];
    }
  }

  /** Escaping a plain stretch and one more character. */
  lemma EscapeOne(done: string, rest: string, n: nat)
    requires n < |rest|
    requires forall j :: 0 <= j < n ==> !IsSpecial(rest[j])
    ensures Escaped(done + rest[..n + 1]) == Escaped(done) + rest[..n] + Entity(rest[n])
  {
    var a := rest[..n];
    var c := rest[n];
    assert rest[..n + 1] == a + [c];
    forall j | 0 <= j < |a|
      ensures !IsSpecial(a[j])
    {
      assert a[j] == rest[j];
    }
    EscapedPlain(a);
    assert [c][1..] == [];
    assert Escaped([c]) == Entity(c);
    EscapedAppend(a, [c]);
    EscapedAppend(done, a + [c]);
  }

  /** When no special character is left, the whole input is escaped. */
  lemma PrintFilterDone(done: string, rest: string, res: string)
    requires res == Escaped(done) + rest
    requires IndexOfSpecial(res, |Escaped(done)|) == -1
    ensures res == Escaped(done + rest)
  {
    var p := |Escaped(done)|;
    assert res[p..] == rest;
    forall t | 0 <= t < |rest|
      ensures !IsSpecial(rest[t])
    {
      assert rest[t] == res[p + t];
    }
    EscapedPlain(rest);
    EscapedAppend(done, rest);
  }

  /** Reads entities back; the inverse of the escaping. */
  function Unescape(s: string): string
    decreases |s|
  {
    if s == [] then []
    else if |s| >= 4 && s[..4] == "&lt;" then "<" + Unescape(s[4..])
    else if |s| >= 4 && s[..4] == "&gt;" then ">" + Unescape(s[4..])
    else if |s| >= 5 && s[..5] == "&amp;" then "&" + Unescape(s[5..])
    else if |s| >= 6 && s[..6] == "&quot;" then "\"" + Unescape(s[6..])
    else if |s| >= 4 && s[..4] == "<br>" then "\n" + Unescape(s[4..])
    else [s[0]] + Unescape(s[1..])
  }

  /** One character's entity, followed by anything, reads back as that character. */
  lemma UnescapeStep(c: char, t: string)
    ensures Unescape(Entity(c) + t) == [c] + Unescape(t)
  {
    if c == '<' {
      UnescapeLt(t);
    } else if c == '>' {
      UnescapeGt(t);
    } else if c == '&' {
      UnescapeAmp(t);
    } else if c == '"' {
      UnescapeQuot(t);
    } else if c == '\n' {
      UnescapeBr(t);
    } else {
      UnescapePlain(c, t);
    }
  }

  lemma UnescapeLt(t: string)
    ensures Unescape("&lt;" + t) == "<" + Unescape(t)
  {
    var s := "&lt;" + t;
    assert s[..4] == "&lt;" && s[4..] == t;
  }

  lemma UnescapeGt(t: string)
    ensures Unescape("&gt;" + t) == ">" + Unescape(t)
  {
    var s := "&gt;" + t;
    assert s[..4] == "&gt;" && s[4..] == t;
    assert s[..4] != "&lt;" by { assert "&gt;"[1] != "&lt;"[1]; }
  }

  lemma UnescapeAmp(t: string)
    ensures Unescape("&amp;" + t) == "&" + Unescape(t)
  {
    var s := "&amp;" + t;
    assert s[..5] == "&amp;" && s[5..] == t;
    assert s[..4] == "&amp";
    assert s[..4] != "&lt;" by { assert "&amp"[1] != "&lt;"[1]; }
    assert s[..4] != "&gt;" by { assert "&amp"[1] != "&gt;"[1]; }
  }

  lemma UnescapeQuot(t: string)
    ensures Unescape("&quot;" + t) == "\"" + Unescape(t)
  {
    var s := "&quot;" + t;
    assert s[..6] == "&quot;" && s[6..] == t;
    assert s[..4] == "&quo" && s[..5] == "&quot";
    assert s[..4] != "&lt;" by { assert "&quo"[1] != "&lt;"[1]; }
    assert s[..4] != "&gt;" by { assert "&quo"[1] != "&gt;"[1]; }
    assert s[..5] != "&amp;" by { assert "&quot"[1] != "&amp;"[1]; }
  }

  lemma UnescapeBr(t: string)
    ensures Unescape("<br>" + t) == "\n" + Unescape(t)
  {
    var s := "<br>" + t;
    assert s[..4] == "<br>" && s[4..] == t;
    assert s[..4] != "&lt;" && s[..4] != "&gt;" by { assert "<br>"[0] != '&'; }
    assert |s| >= 5 ==> s[..5][0] == '<';
    assert |s| >= 6 ==> s[..6][0] == '<';
  }

  lemma UnescapePlain(c: char, t: string)
    requires !IsSpecial(c)
    ensures Unescape([c] + t) == [c] + Unescape(t)
  {
    var s := [c] + t;
    assert s[0] == c && s[1..] == t;
    assert |s| >= 4 ==> s[..4][0] == c;
    assert |s| >= 5 ==> s[..5][0] == c;
    assert |s| >= 6 ==> s[..6][0] == c;
  }

  /** Escaping loses nothing: every escaped string reads back as the original. */
  lemma {:induction false} UnescapeEscaped(s: string)
    ensures Unescape(Escaped(s)) == s
  {
    if s != [] {
      UnescapeEscaped(s[1..]);
      UnescapeStep(s[0], Escaped(s[1..]));
      assert [s[0]] + s[1..] == s;
    }
  }

  /** The escaped text has no raw quote and no raw line break. */
  lemma {:induction false} EscapedHasNoQuoteOrNewline(s: string)
    ensures forall i :: 0 <= i < |Escaped(s)| ==> Escaped(s)[i] != '"' && Escaped(s)[i] != '\n'
  {
    if s != [] {
      EscapedHasNoQuoteOrNewline(s[1..]);
      var e := Entity(s[0]);
      assert forall i :: 0 <= i < |e| ==> e[i] != '"' && e[i] != '\n';
      assert Escaped(s) == e + Escaped(s[1..]);
    }
  }

  // ---------------------------------------------------------------------
  // ConfigList::menuSkip

  /** The option modes of a configuration list. */
  datatype OptMode = NormalOpt | AllOpt | PromptOpt

  /**
   * A menu entry with what the list needs of it: whether it is visible
   * (menu_is_visible) and has a prompt (menu_has_prompt), whether its prompt
   * is a P_MENU, its MENU_ROOT flag, and its child entries.
   */
  datatype Menu = Menu(
    visible: bool,
    hasPrompt: bool,
    isMenuPrompt: bool,
    root: bool,
    children: seq<Menu>)

  /** The part of ConfigList that menuSkip reads. */
  class ConfigList {
    var optMode: OptMode

    constructor (mode: OptMode)
      ensures optMode == mode
    {
      optMode := mode;
    }

    /**
     * menuSkip: an entry is shown when it is visible in normal mode, has a
     * prompt in prompt mode, or always in all mode.
     */
    function MenuSkip(menu: Menu): (skip: bool)
      reads this
      ensures !skip <==> (optMode == AllOpt
                          || (optMode == NormalOpt && menu.visible)
                          || (optMode == PromptOpt && menu.hasPrompt))
    {
      if optMode == NormalOpt && menu.visible then false
      else if optMode == PromptOpt && menu.hasPrompt then false
      else if optMode == AllOpt then false
      else true
    }

    /** An entry that is visible and has a prompt is shown in every mode; all mode shows everything. */
    lemma ShownEntries(menu: Menu)
      ensures menu.visible && menu.hasPrompt ==> !MenuSkip(menu)
      ensures optMode == AllOpt ==> !MenuSkip(menu)
      ensures MenuSkip(menu) ==> optMode != AllOpt
    {
    }
  }

  // ---------------------------------------------------------------------
  // Rendering and looking up fixes

  /** The one-letter form of a tristate: "n", "m" or "y". */
  function TriLetter(t: Tristate): (s: string)
    ensures |s| == 1
  {
    match t
    case No => "n"
    case Mod => "m"
    case Yes => "y"
  }

  /**
   * sym_fix_get_string_value: the letter of a boolean fix, the stored
   * string of a non-boolean fix, and None (NULL) for a disallowed fix.
   */
  function SymFixGetStringValue(fix: SymbolFix): (r: Option<string>)
    ensures r.None? <==> fix.Type() == SfDisallowedType
    ensures fix.value.SfBoolean? ==> r == Some(TriLetter(fix.value.tri))
    ensures fix.value.SfNonBoolean? ==> r == Some(fix.value.nbVal)
  {
    match fix.value
    case SfBoolean(t) => Some(TriLetter(t))
    case SfNonBoolean(v) => Some(v)
    case SfDisallowed(_) => None
  }

  /** Distinct tristates render distinctly, so a boolean fix's value can be read back. */
  lemma TriLetterInjective(t: Tristate, u: Tristate)
    requires TriLetter(t) == TriLetter(u)
    ensures t == u
  {
    assert TriLetter(t)[0] == TriLetter(u)[0];
  }

  /** get_symbol_fix's test: both symbols have a name and the names are equal. */
  predicate SameName(a: Symbol, b: Symbol)
  {
    a.name.Some? && b.name.Some? && a.name.value == b.name.value
  }

  /**
   * get_symbol_fix: the first fix in diagnosis order whose symbol has the
   * same (non-NULL) name as `sym`, or None.
   */
  method GetSymbolFix(sym: Symbol, diag: Diagnosis) returns (r: Option<SymbolFix>)
    ensures r.None? <==> forall i :: 0 <= i < |diag| ==> !SameName(diag[i].sym, sym)
    ensures r.Some? ==> exists i :: 0 <= i < |diag| && diag[i] == r.value && SameName(diag[i].sym, sym)
                                  && forall j :: 0 <= j < i ==> !SameName(diag[j].sym, sym)
    ensures sym.name.None? ==> r.None?
  {
    var i := 0;
    while i < |diag|
      invariant 0 <= i <= |diag|
      invariant forall j :: 0 <= j < i ==> !SameName(diag[j].sym, sym)
    {
      var fix := diag[i];
      if fix.sym.name.Some? && sym.name.Some? && fix.sym.name.value == sym.name.value {
        return Some(fix);
      }
      i := i + 1;
    }
    return None;
  }

  // ---------------------------------------------------------------------
  // rearrange_diagnosis

  /** The sequence 0, 1, ..., n - 1. */
  function Range(n: nat): (r: seq<int>)
    ensures |r| == n
  {
    if n == 0 then [] else Range(n - 1) + [n - 1]
  }

  /** The members of 0..n-1. */
  lemma {:induction false} RangeMembers(n: nat, x: int)
    ensures x in multiset(Range(n)) <==> 0 <= x < n
  {
    if n > 0 {
      RangeMembers(n - 1, x);
      assert multiset(Range(n)) == multiset(Range(n - 1)) + multiset{n - 1};
    }
  }

  /** Every position in `idx` is below `n`. */
  predicate InBounds(idx: seq<int>, n: int)
  {
    forall i :: 0 <= i < |idx| ==> 0 <= idx[i] < n
  }

  /** The elements of `d` at the positions `idx`, in that order. */
  function Pick<T>(d: seq<T>, idx: seq<int>): (r: seq<T>)
    requires InBounds(idx, |d|)
    ensures |r| == |idx|
  {
    seq(|idx|, i requires 0 <= i < |idx| => d[idx[i]])
  }

  lemma BoundsAppend(a: seq<int>, b: seq<int>, n: int)
    ensures InBounds(a + b, n) <==> InBounds(a, n) && InBounds(b, n)
  {
    if InBounds(a + b, n) {
      assert forall i :: 0 <= i < |a| ==> a[i] == (a + b)[i];
      assert forall i :: 0 <= i < |b| ==> b[i] == (a + b)[|a| + i];
    }
  }

  lemma PickAppend<T>(d: seq<T>, a: seq<int>, b: seq<int>)
    requires InBounds(a, |d|) && InBounds(b, |d|)
    ensures InBounds(a + b, |d|)
    ensures Pick(d, a + b) == Pick(d, a) + Pick(d, b)
  {
    BoundsAppend(a, b, |d|);
  }

  /** The entries of a permutation of 0..n-1 lie in 0..n-1. */
  lemma PermutationInBounds(idx: seq<int>, n: nat)
    requires multiset(idx) == multiset(Range(n))
    ensures InBounds(idx, n)
  {
    forall i | 0 <= i < |idx|
      ensures 0 <= idx[i] < n
    {
      assert idx[i] in multiset(idx);
      RangeMembers(n, idx[i]);
    }
  }

  /** Taking the last position n-1 out of a permutation of 0..n-1 leaves a permutation of 0..n-2. */
  lemma RemoveLast(idx: seq<int>, n: nat) returns (a: seq<int>, b: seq<int>)
    requires n > 0 && multiset(idx) == multiset(Range(n))
    ensures idx == a + [n - 1] + b
    ensures multiset(a + b) == multiset(Range(n - 1))
  {
    RangeMembers(n, n - 1);
    a, b := SplitAt(idx, n - 1);
    MultisetSplit(a, n - 1, b);
    RangeDropLast(n);
  }

  /** A sequence containing `x` is some prefix, then `x`, then the rest. */
  lemma SplitAt(idx: seq<int>, x: int) returns (a: seq<int>, b: seq<int>)
    requires x in multiset(idx)
    ensures idx == a + [x] + b
  {
    var j :| 0 <= j < |idx| && idx[j] == x;
    a, b := idx[..j], idx[j + 1..];
    assert idx == a + [x] + b;
  }

  lemma MultisetSplit(a: seq<int>, x: int, b: seq<int>)
    ensures multiset(a + b) == multiset(a + [x] + b) - multiset{x}
  {
    assert a + [x] + b == a + ([x] + b);
  }

  lemma RangeDropLast(n: nat)
    requires n > 0
    ensures multiset(Range(n - 1)) == multiset(Range(n)) - multiset{n - 1}
  {
    assert Range(n) == Range(n - 1) + [n - 1];
  }

  /** Taking one position out of the index sequence takes its element out of the picked multiset. */
  lemma PickSplit<T>(d: seq<T>, a: seq<int>, x: int, b: seq<int>)
    requires 0 <= x < |d| && InBounds(a + b, |d|)
    ensures InBounds(a + [x] + b, |d|)
    ensures multiset(Pick(d, a + [x] + b)) == multiset(Pick(d, a + b)) + multiset{d[x]}
  {
    BoundsAppend(a, b, |d|);
    BoundsAppend(a, [x], |d|);
    PickAppend(d, a, [x]);
    PickAppend(d, a + [x], b);
    PickAppend(d, a, b);
  }

  /** Positions below the last one pick the same elements from `d` without its last element. */
  lemma PickPrefix<T>(d: seq<T>, idx: seq<int>)
    requires |d| > 0 && InBounds(idx, |d| - 1)
    ensures InBounds(idx, |d|)
    ensures Pick(d, idx) == Pick(d[..|d| - 1], idx)
  {
  }

  /** The inductive step: the element at the last position plus a permutation of the others. */
  lemma PickLastStep<T>(d: seq<T>, a: seq<int>, b: seq<int>)
    requires |d| > 0 && InBounds(a + b, |d| - 1)
    requires multiset(Pick(d[..|d| - 1], a + b)) == multiset(d[..|d| - 1])
    ensures InBounds(a + [|d| - 1] + b, |d|)
    ensures multiset(Pick(d, a + [|d| - 1] + b)) == multiset(d)
  {
    var n := |d|;
    var d' := d[..n - 1];
    assert multiset(d) == multiset(d') + multiset{d[n - 1]} by {
      assert d == d' + [d[n - 1]];
    }
    PickPrefix(d, a + b);
    PickSplit(d, a, n - 1, b);
  }

  /** Picking by a permutation of the positions gives a permutation of the sequence. */
  lemma {:induction false} PickPermutation<T>(d: seq<T>, idx: seq<int>)
    requires multiset(idx) == multiset(Range(|d|))
    ensures InBounds(idx, |d|)
    ensures multiset(Pick(d, idx)) == multiset(d)
  {
    PermutationInBounds(idx, |d|);
    if |d| > 0 {
      var a, b := RemoveLast(idx, |d|);
      PermutationInBounds(a + b, |d| - 1);
      PickPermutation(d[..|d| - 1], a + b);
      PickLastStep(d, a, b);
    } else {
      assert |idx| == |multiset(idx)| == 0;
    }
  }

  /**
   * rearrange_diagnosis: a new array, as long as the diagnosis, whose i-th
   * fix is the fix at `fixIdxs[i]`; a permutation of the positions gives a
   * permutation of the fixes.
   */
  method RearrangeDiagnosis(diag: Diagnosis, fixIdxs: seq<int>) returns (permutation: Diagnosis)
    requires |fixIdxs| >= |diag|
    requires forall i :: 0 <= i < |diag| ==> 0 <= fixIdxs[i] < |diag|
    ensures |permutation| == |diag|
    ensures forall i :: 0 <= i < |diag| ==> permutation[i] == diag[fixIdxs[i]]
    ensures multiset(fixIdxs[..|diag|]) == multiset(Range(|diag|)) ==> multiset(permutation) == multiset(diag)
  {
    permutation := [];
    var i := 0;
    while i < |diag|
      invariant 0 <= i <= |diag|
      invariant |permutation| == i
      invariant forall j :: 0 <= j < i ==> permutation[j] == diag[fixIdxs[j]]
    {
      permutation := permutation + [diag[fixIdxs[i]]];
      i := i + 1;
    }
    if multiset(fixIdxs[..|diag|]) == multiset(Range(|diag|)) {
      var idx := fixIdxs[..|diag|];
      PickPermutation(diag, idx);
      assert Pick(diag, idx) == permutation;
    }
  }

  // ---------------------------------------------------------------------
  // config_backup / config_compare

  /**
   * The symbols the backup and the comparison look at: those whose type is
   * known.  sym_get_type only ever turns a tristate into a bool, so this
   * does not depend on the configuration (`BackedIsKnownType`).
   */
  predicate Backed(s: Symbol)
  {
    s.stype != SUnknown
  }

  /** The test `sym_get_type(sym) != S_UNKNOWN` of config_backup and config_compare is `Backed`. */
  lemma BackedIsKnownType(h: Config, s: Symbol)
    ensures SymGetType(h, s) != SUnknown <==> Backed(s)
  {
  }

  /** Every symbol that is backed up has a name (a NULL key would crash the hash table). */
  predicate Named(syms: seq<Symbol>)
  {
    forall i :: 0 <= i < |syms| && Backed(syms[i]) ==> SymGetName(syms[i]).Some?
  }

  /** kconfig's symbols are all nameable, so every backed symbol has a name. */
  lemma NamedWhenNameable(syms: seq<Symbol>)
    requires forall i :: 0 <= i < |syms| ==> Nameable(syms[i])
    ensures Named(syms)
  {
    forall i | 0 <= i < |syms| && Backed(syms[i])
      ensures SymGetName(syms[i]).Some?
    {
      assert Nameable(syms[i]);
    }
  }

  /** The backup table of `syms`: name to current value, a later symbol overwriting an earlier one of the same name. */
  function BackupOf(h: Config, syms: seq<Symbol>): map<string, string>
    requires Named(syms)
  {
    if syms == [] then map[]
    else
      var p := BackupOf(h, syms[..|syms| - 1]);
      var s := syms[|syms| - 1];
      if Backed(s) then p[SymGetName(s).value := SymGetStringValue(h, s)] else p
  }

  /** config_backup: walks every symbol and stores its value under its name. */
  method ConfigBackup(h: Config) returns (backup: map<string, string>)
    requires Named(h.symbols)
    ensures backup == BackupOf(h, h.symbols)
  {
    backup := map[];
    var i := 0;
    while i < |h.symbols|
      invariant 0 <= i <= |h.symbols|
      invariant backup == BackupOf(h, h.symbols[..i])
    {
      var sym := h.symbols[i];
      assert h.symbols[..i + 1][..i] == h.symbols[..i];
      if SymGetType(h, sym) != SUnknown {
        backup := backup[SymGetName(sym).value := SymGetStringValue(h, sym)];
      }
      i := i + 1;
    }
    assert h.symbols[..|h.symbols|] == h.symbols;
  }

  /** What config_compare uses in place of a name missing from the backup. */
  const BackupMissing: string := "symbol backup missing"

  function BackupLookup(backup: map<string, string>, name: string): string
  {
    if name in backup then backup[name] else BackupMissing
  }

  /** A backed symbol whose current value differs from the backup's entry for its name. */
  predicate Mismatch(h: Config, backup: map<string, string>, s: Symbol)
    requires Backed(s) ==> SymGetName(s).Some?
  {
    Backed(s) && BackupLookup(backup, SymGetName(s).value) != SymGetStringValue(h, s)
  }

  /** The number of mismatching symbols. */
  function Mismatches(h: Config, syms: seq<Symbol>, backup: map<string, string>): nat
    requires Named(syms)
  {
    if syms == [] then 0
    else
      Mismatches(h, syms[..|syms| - 1], backup)
      + (if Mismatch(h, backup, syms[|syms| - 1]) then 1 else 0)
  }

  /** config_compare: the number of known-type symbols whose value differs from the backup. */
  method ConfigCompare(h: Config, backup: map<string, string>) returns (mismatch: int)
    requires Named(h.symbols)
    ensures mismatch == Mismatches(h, h.symbols, backup)
  {
    mismatch := 0;
    var i := 0;
    while i < |h.symbols|
      invariant 0 <= i <= |h.symbols|
      invariant mismatch == Mismatches(h, h.symbols[..i], backup)
    {
      var sym := h.symbols[i];
      assert h.symbols[..i + 1][..i] == h.symbols[..i];
      if SymGetType(h, sym) != SUnknown {
        var name := SymGetName(sym).value;
        var backupVal := if name in backup then backup[name] else BackupMissing;
        var currentVal := SymGetStringValue(h, sym);
        if backupVal != currentVal {
          mismatch := mismatch + 1;
        }
      }
      i := i + 1;
    }
    assert h.symbols[..|h.symbols|] == h.symbols;
  }

  /** config_compare returns 0 exactly when every known-type symbol matches its backup entry. */
  lemma {:induction false} CompareZeroIff(h: Config, syms: seq<Symbol>, backup: map<string, string>)
    requires Named(syms)
    ensures Mismatches(h, syms, backup) == 0 <==> forall i :: 0 <= i < |syms| ==> !Mismatch(h, backup, syms[i])
  {
    if syms != [] {
      var p := syms[..|syms| - 1];
      CompareZeroIff(h, p, backup);
      assert forall i :: 0 <= i < |p| ==> p[i] == syms[i];
    }
  }

  /** Two backed symbols sharing a name carry the same current value. */
  predicate NamesDetermineValues(h: Config, syms: seq<Symbol>)
    requires Named(syms)
  {
    forall i, j ::
      (0 <= i < |syms| && 0 <= j < |syms| && Backed(syms[i]) && Backed(syms[j])
       && SymGetName(syms[i]) == SymGetName(syms[j]))
      ==> SymGetStringValue(h, syms[i]) == SymGetStringValue(h, syms[j])
  }

  /** Every backed symbol's name is in its backup, with the value of the last symbol of that name. */
  lemma {:induction false} BackupHolds(h: Config, syms: seq<Symbol>, i: nat)
    requires Named(syms) && i < |syms| && Backed(syms[i])
    ensures SymGetName(syms[i]).value in BackupOf(h, syms)
    ensures NamesDetermineValues(h, syms) ==>
      BackupOf(h, syms)[SymGetName(syms[i]).value] == SymGetStringValue(h, syms[i])
  {
    var p := syms[..|syms| - 1];
    var last := syms[|syms| - 1];
    assert forall k :: 0 <= k < |p| ==> p[k] == syms[k];
    if i < |syms| - 1 {
      BackupHolds(h, p, i);
      if NamesDetermineValues(h, syms) {
        assert NamesDetermineValues(h, p);
      }
    }
  }

  /** Right after config_backup, config_compare finds no mismatch when equal names carry equal values. */
  lemma BackupThenCompare(h: Config)
    requires Named(h.symbols) && NamesDetermineValues(h, h.symbols)
    ensures Mismatches(h, h.symbols, BackupOf(h, h.symbols)) == 0
  {
    var b := BackupOf(h, h.symbols);
    forall i | 0 <= i < |h.symbols|
      ensures !Mismatch(h, b, h.symbols[i])
    {
      if Backed(h.symbols[i]) {
        BackupHolds(h, h.symbols, i);
      }
    }
    CompareZeroIff(h, h.symbols, b);
  }

  /** ... and finds one when two symbols share a name but differ in value. */
  lemma BackupThenCompareDuplicate(h: Config, i: nat, j: nat)
    requires Named(h.symbols) && i < |h.symbols| && j < |h.symbols|
    requires Backed(h.symbols[i]) && Backed(h.symbols[j])
    requires SymGetName(h.symbols[i]) == SymGetName(h.symbols[j])
    requires SymGetStringValue(h, h.symbols[i]) != SymGetStringValue(h, h.symbols[j])
    ensures Mismatches(h, h.symbols, BackupOf(h, h.symbols)) > 0
  {
    var b := BackupOf(h, h.symbols);
    BackupHolds(h, h.symbols, i);
    assert Mismatch(h, b, h.symbols[i]) || Mismatch(h, b, h.symbols[j]);
    CompareZeroIff(h, h.symbols, b);
  }

  /** A symbol absent from the backup still matches when its current value is the placeholder text. */
  lemma MissingKeyPlaceholder(h: Config, s: Symbol, backup: map<string, string>)
    requires Backed(s) && SymGetName(s).Some? && SymGetName(s).value !in backup
    ensures Mismatch(h, backup, s) <==> SymGetStringValue(h, s) != "symbol backup missing"
  {
  }

  // ---------------------------------------------------------------------
  // Blocked values

  /** The direct dependency of `sym` mentions the constant mod. */
  predicate DependsOnMod(sym: Symbol)
  {
    ExprContainsSymbol(sym.dirDep, Some(SymbolMod))
  }

  /**
   * A value the symbol cannot take: out of range, mod only for a tristate,
   * yes only when the direct dependency does not mention mod.
   */
  predicate Blocked(h: Config, sym: Symbol, v: Tristate)
  {
    && !SymTristateWithinRange(h, sym, v)
    && (v == Mod ==> SymGetType(h, sym) == STristate)
    && (v == Yes ==> !DependsOnMod(sym))
  }

  /** The blocked values of a bool or tristate symbol; none for other types. */
  function BlockedSet(h: Config, sym: Symbol): set<Tristate>
  {
    if !SymIsBoolean(sym) then {}
    else set v | v in {No, Mod, Yes} && Blocked(h, sym, v)
  }

  /** sym_has_blocked_values: counts the blocked values of a bool or tristate symbol. */
  function SymHasBlockedValues(h: Config, sym: Symbol): (r: int)
    ensures 0 <= r <= 3
    ensures !SymIsBoolean(sym) ==> r == 0
    ensures SymGetType(h, sym) == SBoolean ==> r <= 2
  {
    if !SymIsBoolean(sym) then 0
    else
      (if !SymTristateWithinRange(h, sym, No) then 1 else 0)
      + (if SymGetType(h, sym) == STristate && !SymTristateWithinRange(h, sym, Mod) then 1 else 0)
      + (if !DependsOnMod(sym) && !SymTristateWithinRange(h, sym, Yes) then 1 else 0)
  }

  /** The count is the number of blocked values. */
  lemma BlockedValuesCount(h: Config, sym: Symbol)
    ensures SymHasBlockedValues(h, sym) == |BlockedSet(h, sym)|
  {
    if SymIsBoolean(sym) {
      var a := if Blocked(h, sym, No) then {No} else {};
      var b := if Blocked(h, sym, Mod) then {Mod} else {};
      var c := if Blocked(h, sym, Yes) then {Yes} else {};
      BlockedSetParts(h, sym, a, b, c);
      assert |a + b| == |a| + |b| by { assert a !! b; }
      assert |a + b + c| == |a + b| + |c| by { assert (a + b) !! c; }
    }
  }

  /** The blocked set of a bool or tristate symbol, value by value. */
  lemma BlockedSetParts(h: Config, sym: Symbol, a: set<Tristate>, b: set<Tristate>, c: set<Tristate>)
    requires SymIsBoolean(sym)
    requires a == (if Blocked(h, sym, No) then {No} else {})
    requires b == (if Blocked(h, sym, Mod) then {Mod} else {})
    requires c == (if Blocked(h, sym, Yes) then {Yes} else {})
    ensures BlockedSet(h, sym) == a + b + c
  {
    forall v | v in BlockedSet(h, sym) ensures v in a + b + c {
      match v
      case No =>
      case Mod =>
      case Yes =>
    }
  }

  /** sym_has_conflict: a visible-by-prompt, non-choice bool or tristate symbol with a blocked value. */
  function SymHasConflict(h: Config, sym: Symbol): (r: bool)
    ensures r ==> SymIsBoolean(sym) && SymHasPrompt(sym) && !sym.isChoice
  {
    SymHasPrompt(sym) && SymIsBoolean(sym) && !sym.isChoice && SymHasBlockedValues(h, sym) != 0
  }

  /** A symbol is in conflict exactly when it is a prompted, non-choice bool or tristate with some blocked value. */
  lemma ConflictMeansBlocked(h: Config, sym: Symbol)
    ensures SymHasConflict(h, sym) <==>
      SymHasPrompt(sym) && SymIsBoolean(sym) && !sym.isChoice && exists v :: v in BlockedSet(h, sym)
  {
    BlockedValuesCount(h, sym);
    if BlockedSet(h, sym) != {} {
      var v :| v in BlockedSet(h, sym);
    }
  }

  /** The values random_blocked_value may choose: blocked and different from the current value. */
  predicate Candidate(h: Config, sym: Symbol, v: Tristate)
  {
    Blocked(h, sym, v) && v != SymGetTristateValue(h, sym)
  }

  /**
   * random_blocked_value: collects the candidates in the order no, mod, yes;
   * one candidate is returned, of two the one `pick` (the value of rand())
   * selects, and with none an error is reported and no returned.
   */
  method RandomBlockedValue(h: Config, sym: Symbol, pick: nat) returns (v: Tristate)
    ensures var cands := set u | u in {No, Mod, Yes} && Candidate(h, sym, u);
      |cands| > 0 ==> v in cands
    ensures (forall u :: !Candidate(h, sym, u)) ==> v == No
    ensures Candidate(h, sym, No) && Candidate(h, sym, Yes) ==> (v == No <==> pick % 2 == 0)
  {
    var values: seq<Tristate> := [];
    if SymGetTristateValue(h, sym) != No && !SymTristateWithinRange(h, sym, No) {
      values := values + [No];
    }
    if SymGetType(h, sym) == STristate && SymGetTristateValue(h, sym) != Mod
      && !SymTristateWithinRange(h, sym, Mod)
    {
      values := values + [Mod];
    }
    if SymGetTristateValue(h, sym) != Yes && !DependsOnMod(sym)
      && !SymTristateWithinRange(h, sym, Yes)
    {
      values := values + [Yes];
    }
    assert forall u :: u in values <==> Candidate(h, sym, u);
    assert |values| <= 2;
    if |values| > 0 {
      assert Candidate(h, sym, values[0]);
    }
    if |values| == 1 {
      v := values[0];
    } else if |values| == 2 {
      v := values[pick % |values|];
    } else {
      v := No;
    }
  }

  /** For a bool or tristate symbol the candidates are its blocked values other than the current one. */
  lemma CandidatesAreBlocked(h: Config, sym: Symbol)
    requires SymIsBoolean(sym)
    ensures (set u | u in {No, Mod, Yes} && Candidate(h, sym, u))
            == BlockedSet(h, sym) - {SymGetTristateValue(h, sym)}
  {
  }

  // ---------------------------------------------------------------------
  // verify_fix_target_values

  /** Each fix carries the value kind of its symbol: a tristate for a bool or tristate symbol. */
  predicate FixTagMatches(fix: SymbolFix)
  {
    SymIsBoolean(fix.sym) <==> fix.value.SfBoolean?
  }

  /**
   * The string verify_fix_target_values reads through `nb_val`; for a
   * disallowed fix the union makes it the disallowed string.
   */
  function FixString(fix: SymbolFix): string
    requires !fix.value.SfBoolean?
  {
    match fix.value
    case SfNonBoolean(s) => s
    case SfDisallowed(s) => s
  }

  /** The symbol of a fix has the fix's target value now. */
  predicate FixReached(h: Config, fix: SymbolFix)
    requires FixTagMatches(fix)
  {
    if SymIsBoolean(fix.sym) then fix.value.tri == SymGetTristateValue(h, fix.sym)
    else FixString(fix) == SymGetStringValue(h, fix.sym)
  }

  /** verify_fix_target_values: true iff every fix of the diagnosis has reached its target. */
  method VerifyFixTargetValues(h: Config, diag: Diagnosis) returns (ok: bool)
    requires forall i :: 0 <= i < |diag| ==> FixTagMatches(diag[i])
    ensures ok <==> forall i :: 0 <= i < |diag| ==> FixReached(h, diag[i])
  {
    var i := 0;
    while i < |diag|
      invariant 0 <= i <= |diag|
      invariant forall j :: 0 <= j < i ==> FixReached(h, diag[j])
    {
      var fix := diag[i];
      var sym := fix.sym;
      match SymGetType(h, sym) {
        case SBoolean =>
          if fix.value.tri != SymGetTristateValue(h, sym) {
            return false;
          }
        case STristate =>
          if fix.value.tri != SymGetTristateValue(h, sym) {
            return false;
          }
        case _ =>
          if FixString(fix) != SymGetStringValue(h, sym) {
            return false;
          }
      }
      i := i + 1;
    }
    return true;
  }

  /**
   * A boolean or non-boolean fix is reached exactly when its rendered value
   * equals the symbol's rendered current value.
   */
  lemma FixReachedAsText(h: Config, fix: SymbolFix)
    requires FixTagMatches(fix) && !fix.value.SfDisallowed?
    ensures FixReached(h, fix) <==>
      SymFixGetStringValue(fix) == Some(if SymIsBoolean(fix.sym) then TriLetter(SymGetTristateValue(h, fix.sym))
                                        else SymGetStringValue(h, fix.sym))
  {
    if SymIsBoolean(fix.sym) && SymFixGetStringValue(fix) == Some(TriLetter(SymGetTristateValue(h, fix.sym))) {
      TriLetterInjective(fix.value.tri, SymGetTristateValue(h, fix.sym));
    }
  }

  // ---------------------------------------------------------------------
  // Numbering of saved conflicts (get_conflict_dir)

  /** One entry of the configuration sample directory. */
  datatype DirEntry = DirEntry(name: string, isDir: bool)

  const ConflictPrefix: string := "conflict."

  /** The delimiter set strtok is given: the characters of "conflict.". */
  const ConflictDelims: set<char> := {'c', 'o', 'n', 'f', 'l', 'i', 't', '.'}

  /**
   * The number of a `conflict.*` subdirectory: atoi of the first strtok
   * token of its name; None for other entries or when there is no token.
   */
  function ConflictNumber(e: DirEntry): Option<int>
  {
    if e.isDir && StartsWith(e.name, ConflictPrefix) then
      match StrtokFirst(e.name, ConflictDelims)
      case Some(tok) => Some(StrToL(tok))
      case None => None
    else None
  }

  /** The conflict numbers of a directory's entries, in readdir order. */
  function ConflictNumbers(entries: seq<DirEntry>): (r: seq<Option<int>>)
    ensures |r| == |entries|
  {
    if entries == [] then []
    else ConflictNumbers(entries[..|entries| - 1]) + [ConflictNumber(entries[|entries| - 1])]
  }

  /** `r` is one more than the largest number in `nums`, and at least 1. */
  predicate IsNextNumber(nums: seq<Option<int>>, r: int)
  {
    && r >= 1
    && (forall i :: 0 <= i < |nums| && nums[i].Some? ==> nums[i].value < r)
    && (r == 1 || exists i :: 0 <= i < |nums| && nums[i] == Some(r - 1))
  }

  /** The next number is determined by the numbers already in use. */
  lemma NextNumberUnique(nums: seq<Option<int>>, r: int, s: int)
    requires IsNextNumber(nums, r) && IsNextNumber(nums, s)
    ensures r == s
  {
  }

  /** One entry of the numbering loop: a larger conflict number raises the candidate. */
  lemma NextNumberStep(nums: seq<Option<int>>, c: Option<int>, next: int, next': int)
    requires IsNextNumber(nums, next)
    requires next' == if c.Some? && c.value >= next then c.value + 1 else next
    ensures IsNextNumber(nums + [c], next')
  {
    var post := nums + [c];
    assert forall i :: 0 <= i < |nums| ==> post[i] == nums[i];
    assert post[|nums|] == c;
    if next' != next {
      assert post[|nums|] == Some(next' - 1);
    } else if next != 1 {
      var j :| 0 <= j < |nums| && nums[j] == Some(next - 1);
      assert post[j] == Some(next - 1);
    }
  }

  /** The numbers of a longer prefix of the entries extend those of the shorter one. */
  lemma ConflictNumbersExtend(entries: seq<DirEntry>, k: nat)
    requires k < |entries|
    ensures ConflictNumbers(entries[..k + 1]) == ConflictNumbers(entries[..k]) + [ConflictNumber(entries[k])]
  {
    assert entries[..k + 1][..k] == entries[..k];
  }

  /**
   * One iteration of get_conflict_dir's numbering loop: raising the
   * candidate past the number of entry k keeps it the next number of the
   * entries read so far.
   */
  lemma NumberingStep(entries: seq<DirEntry>, k: nat, current: Option<int>, next: int, next': int)
    requires k < |entries| && current == ConflictNumber(entries[k])
    requires IsNextNumber(ConflictNumbers(entries[..k]), next)
    requires next' == if current.Some? && current.value >= next then current.value + 1 else next
    ensures IsNextNumber(ConflictNumbers(entries[..k + 1]), next')
  {
    NextNumberStep(ConflictNumbers(entries[..k]), current, next, next');
    ConflictNumbersExtend(entries, k);
  }

  /** The numbering loop of get_conflict_dir over the directory's entries, in readdir order. */
  method NextConflictNumber(entries: seq<DirEntry>) returns (next: int)
    ensures IsNextNumber(ConflictNumbers(entries), next)
  {
    next := 1;
    var k := 0;
    while k < |entries|
      invariant 0 <= k <= |entries|
      invariant IsNextNumber(ConflictNumbers(entries[..k]), next)
    {
      ghost var before := next;
      var current := ConflictNumber(entries[k]);
      if current.Some? && current.value >= next {
        next := current.value + 1;
      }
      NumberingStep(entries, k, current, before, next);
      k := k + 1;
    }
    assert entries[..|entries|] == entries;
  }

  /** The directory name get_conflict_dir builds: `<config dir>conflict.<nn>/`. */
  function ConflictDirName(configDir: string, n: nat): string
  {
    configDir + ConflictPrefix + Pad2(n) + "/"
  }

  /**
   * get_conflict_dir: numbers the existing conflict directories of the
   * configuration directory `configDir`, whose entries readdir yields as
   * `entries`, and names the directory for the next number.
   */
  method GetConflictDir(configDir: string, entries: seq<DirEntry>) returns (dir: string)
    ensures exists n: nat :: IsNextNumber(ConflictNumbers(entries), n) && dir == ConflictDirName(configDir, n)
  {
    var next := NextConflictNumber(entries);
    dir := ConflictDirName(configDir, next);
  }

  /** The subdirectory `conflict.<nn>` reads back as number n. */
  lemma ConflictNumberRoundTrip(n: nat)
    ensures ConflictNumber(DirEntry(ConflictPrefix + Pad2(n), true)) == Some(n)
  {
    var name := ConflictPrefix + Pad2(n);
    StartsWithPrefix(name, ConflictPrefix);
    assert ConflictPrefix <= name;
    Pad2NoDelims(n);
    StrtokAfterPrefix(Pad2(n));
    Pad2RoundTrip(n);
  }

  /** No digit is one of strtok's delimiters. */
  lemma Pad2NoDelims(n: nat)
    ensures forall i :: 0 <= i < |Pad2(n)| ==> Pad2(n)[i] !in ConflictDelims
  {
    var p := Pad2(n);
    forall i | 0 <= i < |p| ensures p[i] !in ConflictDelims {
      assert IsDigit(p[i]);
    }
  }

  /** strtok skips the `conflict.` prefix and returns the delimiter-free token after it. */
  lemma StrtokAfterPrefix(p: string)
    requires |p| > 0 && forall i :: 0 <= i < |p| ==> p[i] !in ConflictDelims
    ensures StrtokFirst(ConflictPrefix + p, ConflictDelims) == Some(p)
  {
    SkipInPrefix(ConflictPrefix, p, ConflictDelims);
    assert SkipIn(p, ConflictDelims) == p;
    TakeUntilAll(p, ConflictDelims);
  }

  /** Once the conflict directory is created, the next number is one higher: numbers are never reused. */
  lemma NextNumberAdvances(entries: seq<DirEntry>, r: int)
    requires IsNextNumber(ConflictNumbers(entries), r)
    ensures IsNextNumber(ConflictNumbers(entries + [DirEntry(ConflictPrefix + Pad2(r), true)]), r + 1)
  {
    var d := DirEntry(ConflictPrefix + Pad2(r), true);
    assert (entries + [d])[..|entries|] == entries;
    ConflictNumberRoundTrip(r);
    NextNumberStep(ConflictNumbers(entries), Some(r), r, r + 1);
  }
}

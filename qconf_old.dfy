/**
 * The members of the older qconf.cc (code/scripts/kconfig/qconf.cc) that the
 * newer copy does not share: the option-mode switch of a ConfigView, the
 * unlinking of a view from the global view list, get_config_dir and
 * fixup_rootmenu.  The members the two copies share (print_filter,
 * menuSkip, get_symbol_fix, rearrange_diagnosis, config_compare) are the
 * ones in Qconf.
 */
module QconfOld {
  import opened Host
  import opened Qconf

  // ---------------------------------------------------------------------
  // Option mode

  /** The QAction that triggered setOptionMode: one of the two named actions, or any other. */
  datatype OptionAction = ShowNormalAction | ShowAllAction | OtherAction

  /** A ConfigView with the list it shows, linked into the global view list. */
  class ConfigView {
    var list: ConfigList

    constructor (list: ConfigList)
      ensures this.list == list
    {
      this.list := list;
    }

    /**
     * setOptionMode: the normal action selects normal mode, the all action
     * all mode, and any other action prompt mode; nothing but the list's
     * mode changes.
     */
    method SetOptionMode(act: OptionAction)
      modifies list
      ensures list == old(list)
      ensures act == ShowNormalAction ==> list.optMode == NormalOpt
      ensures act == ShowAllAction ==> list.optMode == AllOpt
      ensures act == OtherAction ==> list.optMode == PromptOpt
      ensures act == ShowAllAction ==> forall m :: !list.MenuSkip(m)
      ensures act == ShowNormalAction ==> forall m :: list.MenuSkip(m) == !m.visible
      ensures act == OtherAction ==> forall m :: list.MenuSkip(m) == !m.hasPrompt
    {
      if act == ShowNormalAction {
        list.optMode := NormalOpt;
      } else if act == ShowAllAction {
        list.optMode := AllOpt;
      } else {
        list.optMode := PromptOpt;
      }
    }
  }

  // ---------------------------------------------------------------------
  // The global view list

  /** `s` without its first occurrence of `x`; `s` itself when `x` is absent. */
  function RemoveFirst<T(==)>(s: seq<T>, x: T): (r: seq<T>)
    ensures |r| == if x in s then |s| - 1 else |s|
  {
    if s == [] then []
    else if s[0] == x then s[1..]
    else [s[0]] + RemoveFirst(s[1..], x)
  }

  /** RemoveFirst deletes exactly the position of the first occurrence and keeps the rest in order. */
  lemma {:induction false} RemoveFirstAt<T>(s: seq<T>, x: T, i: nat)
    requires i < |s| && s[i] == x
    requires forall j :: 0 <= j < i ==> s[j] != x
    ensures RemoveFirst(s, x) == s[..i] + s[i + 1..]
  {
    if i > 0 {
      RemoveFirstAt(s[1..], x, i - 1);
      assert s[1..][..i - 1] + s[1..][i..] == s[1..i] + s[i + 1..];
      assert s[..i] == [s[0]] + s[1..i];
    }
  }

  /** Removing an absent element changes nothing. */
  lemma {:induction false} RemoveFirstAbsent<T>(s: seq<T>, x: T)
    requires x !in s
    ensures RemoveFirst(s, x) == s
  {
    if s != [] {
      assert x !in s[1..];
      RemoveFirstAbsent(s[1..], x);
    }
  }

  /** Exactly one occurrence of `x` goes, and only when there is one. */
  lemma {:induction false} RemoveFirstMultiset<T>(s: seq<T>, x: T)
    ensures multiset(RemoveFirst(s, x)) == multiset(s) - multiset{x}
  {
    if s != [] {
      assert s == [s[0]] + s[1..];
      if s[0] != x {
        RemoveFirstMultiset(s[1..], x);
      }
    }
  }

  /** A view registered and then destroyed leaves the list as it was. */
  lemma RegisterThenRemove<T>(s: seq<T>, x: T)
    ensures RemoveFirst([x] + s, x) == s
  {
    assert ([x] + s)[1..] == s;
  }

  /** The static `viewList` of ConfigView, newest view first. */
  class ViewRegistry {
    var viewList: seq<ConfigView>

    constructor ()
      ensures viewList == []
    {
      viewList := [];
    }

    /** The ConfigView constructor links the new view in at the head of the list. */
    method Register(v: ConfigView)
      modifies this
      ensures viewList == [v] + old(viewList)
    {
      viewList := [v] + viewList;
    }

    /**
     * ~ConfigView: walk the list to the first link that points at `v` and
     * unlink it; a list without `v` is left alone.
     */
    method Unlink(v: ConfigView)
      modifies this
      ensures viewList == RemoveFirst(old(viewList), v)
    {
      var i := 0;
      while i < |viewList| && viewList[i] != v
        invariant 0 <= i <= |viewList|
        invariant forall j :: 0 <= j < i ==> viewList[j] != v
      {
        i := i + 1;
      }
      if i < |viewList| {
        RemoveFirstAt(viewList, v, i);
        viewList := viewList[..i] + viewList[i + 1..];
      } else {
        RemoveFirstAbsent(viewList, v);
      }
    }
  }

  // ---------------------------------------------------------------------
  // get_config_dir

  /** The position of the last '/' in `s` (strrchr), or None. */
  function LastSlash(s: string): (r: Option<nat>)
    ensures r.None? <==> '/' !in s
    ensures r.Some? ==> r.value < |s| && s[r.value] == '/'
    ensures r.Some? ==> forall j :: r.value < j < |s| ==> s[j] != '/'
  {
    if s == [] then None
    else if s[|s| - 1] == '/' then Some(|s| - 1)
    else LastSlash(s[..|s| - 1])
  }

  /** The directory get_config_dir reports for a configuration file name. */
  function ConfigDir(name: string): (r: string)
    ensures |r| > 0 && r[|r| - 1] == '/'
    ensures '/' in name ==> r <= name && '/' !in name[|r|..]
    ensures '/' !in name ==> r == "./"
  {
    match LastSlash(name)
    case Some(i) => name[..i + 1]
    case None => "./"
  }

  /** The shared configuration-name buffer that conf_get_configname returns. */
  class ConfigNameBuffer {
    var name: string

    constructor (name: string)
      ensures this.name == name
    {
      this.name := name;
    }

    /**
     * get_config_dir: cut the name after its last '/' in place and return
     * it, or return "./" and leave a name without a slash alone.
     */
    method GetConfigDir() returns (dir: string)
      modifies this
      ensures dir == ConfigDir(old(name))
      ensures name == if '/' in old(name) then dir else old(name)
    {
      var k := LastSlash(name);
      if k.Some? {
        name := name[..k.value + 1];
        dir := name;
      } else {
        dir := "./";
      }
    }
  }

  /** The buffer after a call still yields the same directory, so a second call returns the same result. */
  lemma ConfigDirStable(name: string)
    ensures ConfigDir(if '/' in name then ConfigDir(name) else name) == ConfigDir(name)
  {
    if '/' in name {
      var d := ConfigDir(name);
      assert d[|d| - 1] == '/';
      assert LastSlash(d) == Some(|d| - 1);
      assert d[..|d|] == d;
    }
  }

  // ---------------------------------------------------------------------
  // fixup_rootmenu

  /** What fixup_rootmenu makes of one child, given the count of enclosing P_MENU children. */
  function FixupChild(c: Menu, cnt: int): Menu
    decreases c, 1
  {
    if c.isMenuPrompt then FixupSpec(c, cnt + 1)
    else if cnt == 0 then FixupSpec(c, cnt)
    else c
  }

  /**
   * fixup_rootmenu on a menu tree: MENU_ROOT on the entry, P_MENU children
   * always fixed with the count one higher, other children fixed only
   * when the count is 0.
   */
  function FixupSpec(m: Menu, cnt: int): (r: Menu)
    decreases m, 0
  {
    m.(root := true,
       children := seq(|m.children|, i requires 0 <= i < |m.children| => FixupChild(m.children[i], cnt)))
  }

  /** fixup_rootmenu with its static `menu_cnt`. */
  class RootMenuFixer {
    var menuCnt: int

    constructor ()
      ensures menuCnt == 0
    {
      menuCnt := 0;
    }

    /**
     * fixup_rootmenu: mark the entry and walk its children, counting the
     * P_MENU children being processed; the count is balanced on return.
     */
    method FixupRootmenu(m: Menu) returns (r: Menu)
      modifies this
      decreases m
      ensures r == FixupSpec(m, old(menuCnt))
      ensures menuCnt == old(menuCnt)
    {
      var kids: seq<Menu> := [];
      var i := 0;
      while i < |m.children|
        invariant 0 <= i <= |m.children|
        invariant menuCnt == old(menuCnt)
        invariant |kids| == i
        invariant forall j :: 0 <= j < i ==> kids[j] == FixupChild(m.children[j], menuCnt)
      {
        var child := m.children[i];
        var fixed := child;
        if child.isMenuPrompt {
          menuCnt := menuCnt + 1;
          fixed := FixupRootmenu(child);
          menuCnt := menuCnt - 1;
        } else if menuCnt == 0 {
          fixed := FixupRootmenu(child);
        }
        kids := kids + [fixed];
        i := i + 1;
      }
      r := m.(root := true, children := kids);
    }
  }

  /** The tree with every MENU_ROOT flag cleared: what fixup_rootmenu must not change. */
  function Shape(m: Menu): (r: Menu)
    ensures !r.root && |r.children| == |m.children|
  {
    m.(root := false,
       children := seq(|m.children|, i requires 0 <= i < |m.children| => Shape(m.children[i])))
  }

  /** fixup_rootmenu only sets flags: the tree keeps its entries, prompts and order. */
  lemma {:induction false} FixupKeepsShape(m: Menu, cnt: int)
    ensures Shape(FixupSpec(m, cnt)) == Shape(m)
  {
    var f := FixupSpec(m, cnt);
    forall i | 0 <= i < |m.children|
      ensures Shape(f.children[i]) == Shape(m.children[i])
    {
      var c := m.children[i];
      if c.isMenuPrompt {
        FixupKeepsShape(c, cnt + 1);
      } else if cnt == 0 {
        FixupKeepsShape(c, cnt);
      }
    }
  }

  /** The entry is marked, and so is every P_MENU entry reachable through P_MENU children. */
  predicate MenusMarked(m: Menu)
  {
    m.root && forall i :: 0 <= i < |m.children| && m.children[i].isMenuPrompt ==> MenusMarked(m.children[i])
  }

  /** Every entry is marked. */
  predicate AllMarked(m: Menu)
  {
    m.root && forall i :: 0 <= i < |m.children| ==> AllMarked(m.children[i])
  }

  /** Every P_MENU entry below the argument, through P_MENU children, ends up marked, whatever the count. */
  lemma {:induction false} FixupMarksMenus(m: Menu, cnt: int)
    ensures MenusMarked(FixupSpec(m, cnt))
  {
    var f := FixupSpec(m, cnt);
    forall i | 0 <= i < |f.children|
      ensures f.children[i].isMenuPrompt ==> MenusMarked(f.children[i])
    {
      var c := m.children[i];
      if c.isMenuPrompt {
        FixupMarksMenus(c, cnt + 1);
      } else {
        assert !f.children[i].isMenuPrompt by {
          if cnt == 0 {
            assert f.children[i] == FixupSpec(c, cnt);
          }
        }
      }
    }
  }

  /** A tree with no P_MENU entry below the root is marked throughout when the count is 0. */
  predicate NoMenuPrompts(m: Menu)
  {
    forall i :: 0 <= i < |m.children| ==> !m.children[i].isMenuPrompt && NoMenuPrompts(m.children[i])
  }

  lemma {:induction false} FixupMarksAll(m: Menu)
    requires NoMenuPrompts(m)
    ensures AllMarked(FixupSpec(m, 0))
  {
    var f := FixupSpec(m, 0);
    forall i | 0 <= i < |f.children|
      ensures AllMarked(f.children[i])
    {
      FixupMarksAll(m.children[i]);
    }
  }

  /** Fixing a tree a second time with the same count changes nothing. */
  lemma {:induction false} FixupIdempotent(m: Menu, cnt: int)
    ensures FixupSpec(FixupSpec(m, cnt), cnt) == FixupSpec(m, cnt)
  {
    var f := FixupSpec(m, cnt);
    var g := FixupSpec(f, cnt);
    forall i | 0 <= i < |m.children|
      ensures g.children[i] == f.children[i]
    {
      var c := m.children[i];
      if c.isMenuPrompt {
        FixupIdempotent(c, cnt + 1);
      } else if cnt == 0 {
        FixupIdempotent(c, cnt);
      }
    }
  }
}

/**
 * The module checkboxes of the GUI issuer: one boolean flag per catalog
 * module, kept in a dictionary whose iteration order is the catalog order.
 * "Select all" and "deselect all" rewrite every flag in place; the selection
 * read off the panel is the catalog filtered by the flags.
 */
module ModulePanel {

  /** The modules a licence can grant, in the order the panel shows them. */
  const Catalog: seq<string> := [
    "auth", "admin", "personal-space", "gps", "stations", "subscription", "ticket", "user",
    "ppk", "spp", "static", "lgps2", "capcha", "email", "database"
  ]

  /** The modules ticked when the panel is built. */
  const Defaults: seq<string> := [
    "admin", "personal-space", "gps", "stations", "subscription", "ticket", "user", "ppk", "spp", "static"
  ]

  predicate NoDuplicates(s: seq<string>) {
    forall i, j :: 0 <= i < j < |s| ==> s[i] != s[j]
  }

  predicate IsSet(flags: map<string, bool>, m: string) {
    m in flags && flags[m]
  }

  /** The names whose flag is set, in the order of `names`: what the selection loop appends. */
  function SelectedOf(names: seq<string>, flags: map<string, bool>): seq<string> {
    if names == [] then []
    else
      var last := names[|names| - 1];
      SelectedOf(names[..|names| - 1], flags) + if IsSet(flags, last) then [last] else []
  }

  /** The position of the first occurrence of `x` in `s`. */
  function IndexOf(s: seq<string>, x: string): (i: nat)
    requires x in s
    ensures i < |s| && s[i] == x && x !in s[..i]
  {
    if s[0] == x then 0 else 1 + IndexOf(s[1..], x)
  }

  /** A name is selected exactly when it is in the catalog and its flag is set. */
  lemma {:induction false} SelectedMembership(names: seq<string>, flags: map<string, bool>, x: string)
    ensures x in SelectedOf(names, flags) <==> x in names && IsSet(flags, x)
  {
    if names != [] {
      var init := names[..|names| - 1];
      SelectedMembership(init, flags, x);
      assert names == init + [names[|names| - 1]];
    }
  }

  /** The selection never repeats a module when the catalog does not. */
  lemma {:induction false} SelectedNoDuplicates(names: seq<string>, flags: map<string, bool>)
    requires NoDuplicates(names)
    ensures NoDuplicates(SelectedOf(names, flags))
  {
    if names != [] {
      var init := names[..|names| - 1];
      var last := names[|names| - 1];
      SelectedNoDuplicates(init, flags);
      SelectedMembership(init, flags, last);
      assert last !in init;
    }
  }

  lemma IndexOfPrefix(s: seq<string>, x: string)
    requires s != [] && x in s[..|s| - 1]
    ensures IndexOf(s, x) == IndexOf(s[..|s| - 1], x)
  {
  }

  /** Every element of `r` occurs in `names`, and in the same relative order. */
  predicate InOrderOf(r: seq<string>, names: seq<string>) {
    forall i, j :: 0 <= i < j < |r| ==> PairInOrder(r, names, i, j)
  }

  predicate PairInOrder(r: seq<string>, names: seq<string>, i: nat, j: nat)
    requires i < j < |r|
  {
    r[i] in names && r[j] in names && IndexOf(names, r[i]) < IndexOf(names, r[j])
  }

  lemma OrderStep(names: seq<string>, flags: map<string, bool>, i: nat, j: nat)
    requires NoDuplicates(names) && names != []
    requires InOrderOf(SelectedOf(names[..|names| - 1], flags), names[..|names| - 1])
    requires i < j < |SelectedOf(names, flags)|
    ensures PairInOrder(SelectedOf(names, flags), names, i, j)
  {
    var init := names[..|names| - 1];
    var last := names[|names| - 1];
    var p := SelectedOf(init, flags);
    var r := SelectedOf(names, flags);
    assert r == p + if IsSet(flags, last) then [last] else [];
    assert r[i] == p[i];
    SelectedMembership(init, flags, p[i]);
    IndexOfPrefix(names, p[i]);
    if j < |p| {
      assert r[j] == p[j];
      assert PairInOrder(p, init, i, j);
      SelectedMembership(init, flags, p[j]);
      IndexOfPrefix(names, p[j]);
    } else {
      assert r[j] == last;
      LastIndex(names);
    }
  }

  lemma LastIndex(names: seq<string>)
    requires NoDuplicates(names) && names != []
    ensures IndexOf(names, names[|names| - 1]) == |names| - 1
  {
  }

  /** The selection keeps catalog order: earlier in the selection means earlier in the catalog. */
  lemma {:induction false} SelectedInOrder(names: seq<string>, flags: map<string, bool>)
    requires NoDuplicates(names)
    ensures InOrderOf(SelectedOf(names, flags), names)
  {
    if names != [] {
      var r := SelectedOf(names, flags);
      SelectedInOrder(names[..|names| - 1], flags);
      forall i, j | 0 <= i < j < |r|
        ensures PairInOrder(r, names, i, j)
      {
        OrderStep(names, flags, i, j);
      }
    }
  }

  /** With every flag set, the selection is the whole catalog, in catalog order. */
  lemma {:induction false} SelectedAll(names: seq<string>, flags: map<string, bool>)
    requires forall m :: m in names ==> IsSet(flags, m)
    ensures SelectedOf(names, flags) == names
  {
    if names != [] {
      var init := names[..|names| - 1];
      SelectedAll(init, flags);
      assert names == init + [names[|names| - 1]];
    }
  }

  /** With every flag cleared, nothing is selected. */
  lemma {:induction false} SelectedNone(names: seq<string>, flags: map<string, bool>)
    requires forall m :: m in names ==> !IsSet(flags, m)
    ensures SelectedOf(names, flags) == []
  {
    if names != [] {
      SelectedNone(names[..|names| - 1], flags);
    }
  }

  /** The flags the panel starts with: a catalog module is ticked exactly when it is a default. */
  function InitialFlags(): map<string, bool> {
    map m | m in Catalog :: m in Defaults
  }

  lemma CatalogNoDuplicates()
    ensures NoDuplicates(Catalog) && |Catalog| == 15
  {
  }

  /** Before anything is clicked the selection is the default list, in that order. */
  lemma InitialSelection()
    ensures SelectedOf(Catalog, InitialFlags()) == Defaults
  {
    var f := InitialFlags();
    assert Defaults == Catalog[1..11];
    CatalogNoDuplicates();
    forall k | 0 <= k < |Catalog|
      ensures IsSet(f, Catalog[k]) <==> 1 <= k < 11
    {
      if Catalog[k] in Catalog[1..11] {
        var t :| 1 <= t < 11 && Catalog[1..11][t - 1] == Catalog[k];
        assert Catalog[t] == Catalog[k];
      }
      if 1 <= k < 11 {
        assert Catalog[1..11][k - 1] == Catalog[k];
      }
    }
    SelectedWindow(Catalog, f, 1, 11, |Catalog|);
    assert Catalog[..|Catalog|] == Catalog;
  }

  /** When exactly the names at positions `a` to `b` are ticked, the selection is that slice. */
  lemma {:induction false} SelectedWindow(names: seq<string>, flags: map<string, bool>, a: nat, b: nat, n: nat)
    requires a <= b <= |names| && n <= |names|
    requires forall k :: 0 <= k < |names| ==> (IsSet(flags, names[k]) <==> a <= k < b)
    ensures SelectedOf(names[..n], flags) == names[Min(a, n)..Min(b, n)]
  {
    if n > 0 {
      SelectedWindow(names, flags, a, b, n - 1);
      assert names[..n][..n - 1] == names[..n - 1];
      if a <= n - 1 < b {
        assert names[Min(a, n)..Min(b, n)] == names[Min(a, n - 1)..Min(b, n - 1)] + [names[n - 1]];
      }
    }
  }

  function Min(x: nat, y: nat): nat {
    if x <= y then x else y
  }

  /** The checkbox panel: the catalog order and one flag per catalog module. */
  class Panel {
    const names: seq<string>
    var flags: map<string, bool>

    ghost predicate Valid()
      reads this
    {
      NoDuplicates(names) && (forall m :: m in flags <==> m in names)
    }

    /** Builds one flag per catalog module, ticked for the defaults. */
    constructor ()
      ensures Valid()
      ensures names == Catalog && flags == InitialFlags()
    {
      var vars: map<string, bool> := map[];
      var i := 0;
      while i < |Catalog|
        invariant 0 <= i <= |Catalog|
        invariant vars == map m | m in Catalog[..i] :: m in Defaults
      {
        assert Catalog[..i + 1] == Catalog[..i] + [Catalog[i]];
        vars := vars[Catalog[i] := Catalog[i] in Defaults];
        i := i + 1;
      }
      assert Catalog[..i] == Catalog;
      CatalogNoDuplicates();
      names := Catalog;
      flags := vars;
    }

    /** The ticked modules, appended one by one in catalog order. */
    method Selected() returns (selected: seq<string>)
      requires Valid()
      ensures selected == SelectedOf(names, flags)
    {
      selected := [];
      var i := 0;
      while i < |names|
        invariant 0 <= i <= |names|
        invariant selected == SelectedOf(names[..i], flags)
      {
        assert names[..i + 1][..i] == names[..i];
        if flags[names[i]] {
          selected := selected + [names[i]];
        }
        i := i + 1;
      }
      assert names[..i] == names;
    }

    /** Sets every flag; no module is added or removed. */
    method SelectAll()
      requires Valid()
      modifies this
      ensures Valid()
      ensures flags == map m | m in old(flags) :: true
    {
      var i := 0;
      while i < |names|
        invariant 0 <= i <= |names|
        invariant flags.Keys == old(flags).Keys
        invariant forall m :: m in flags ==> flags[m] == (m in names[..i] || old(flags)[m])
      {
        assert names[..i + 1] == names[..i] + [names[i]];
        flags := flags[names[i] := true];
        i := i + 1;
      }
      assert names[..i] == names;
    }

    /** Clears every flag; no module is added or removed. */
    method DeselectAll()
      requires Valid()
      modifies this
      ensures Valid()
      ensures flags == map m | m in old(flags) :: false
    {
      var i := 0;
      while i < |names|
        invariant 0 <= i <= |names|
        invariant flags.Keys == old(flags).Keys
        invariant forall m :: m in flags ==> flags[m] == (m !in names[..i] && old(flags)[m])
      {
        assert names[..i + 1] == names[..i] + [names[i]];
        flags := flags[names[i] := false];
        i := i + 1;
      }
      assert names[..i] == names;
    }
  }

  /** After "select all" the selection is the whole catalog. */
  lemma SelectAllSelectsCatalog(names: seq<string>, flags: map<string, bool>)
    requires forall m :: m in flags <==> m in names
    ensures SelectedOf(names, map m | m in flags :: true) == names
  {
    SelectedAll(names, map m | m in flags :: true);
  }

  /** After "deselect all" the selection is empty. */
  lemma DeselectAllSelectsNothing(names: seq<string>, flags: map<string, bool>)
    ensures SelectedOf(names, map m | m in flags :: false) == []
  {
    SelectedNone(names, map m | m in flags :: false);
  }
}

/** The aspect catalogue and the dataset's category list. Aspect names come from
    recipe configuration files; each distinct name becomes one aspect with a
    fresh positive id, in first-seen order, and one dataset category with the
    same id. Category 0 is the reserved free hexagon. */
module Categories {
  import opened Wrappers
  import opened Sequences

  /** An aspect: its name and its category id. The generator's internal
      markers (`_EMPTY_`, `_SCRIPT_`) would have negative ids and are
      modelled separately, as occupants of a cell. */
  datatype Aspect = Aspect(name: string, idx: int)

  /** A dataset category; its supercategory is always "none". */
  datatype Category = Category(id: int, name: string)

  const FreeHex: Category := Category(0, "free_hex")

  /** The one aspect whose tile is hue-shifted each time it is drawn. */
  const Tincturem: string := "tincturem"

  /** The distinct names of a name list, in the order they were first seen. */
  function FirstSeen(names: seq<string>): (d: seq<string>)
    ensures forall n :: n in d <==> n in names
    ensures Distinct(d)
  {
    if names == [] then []
    else
      var d := FirstSeen(names[..|names| - 1]);
      var n := names[|names| - 1];
      assert forall m :: m in names <==> m in names[..|names| - 1] || m == n;
      if n in d then d else d + [n]
  }

  /** The aspect list after each of `names` was offered to the registry in turn. */
  function AspectsOf(names: seq<string>): seq<Aspect> {
    var d := FirstSeen(names);
    seq(|d|, k requires 0 <= k < |d| => Aspect(d[k], k + 1))
  }

  /** The category list after each of `names` was offered to the registry in turn. */
  function CategoriesOf(names: seq<string>): seq<Category> {
    var d := FirstSeen(names);
    [FreeHex] + seq(|d|, k requires 0 <= k < |d| => Category(k + 1, d[k]))
  }

  /** The aspect list and the category list agree: category k + 1 is aspect k,
      category ids are their positions, the free hexagon comes first, every
      aspect id is positive, and no name is listed twice. */
  lemma CatalogueShape(names: seq<string>)
    ensures |CategoriesOf(names)| == |AspectsOf(names)| + 1
    ensures CategoriesOf(names)[0] == FreeHex
    ensures forall k :: 0 <= k < |CategoriesOf(names)| ==> CategoriesOf(names)[k].id == k
    ensures forall k :: 0 <= k < |AspectsOf(names)| ==>
      AspectsOf(names)[k].idx == k + 1 > 0 && CategoriesOf(names)[k + 1].name == AspectsOf(names)[k].name
    ensures Distinct(AspectsOf(names))
    ensures forall n :: n in names <==> exists k :: 0 <= k < |AspectsOf(names)| && AspectsOf(names)[k].name == n
  {
    var d := FirstSeen(names);
    forall n | n in names
      ensures exists k :: 0 <= k < |AspectsOf(names)| && AspectsOf(names)[k].name == n
    {
      var k :| 0 <= k < |d| && d[k] == n;
      assert AspectsOf(names)[k].name == n;
    }
  }

  /** Offering a name that was already offered changes nothing. */
  lemma {:induction false} OfferKnown(names: seq<string>, n: string)
    requires n in names
    ensures AspectsOf(names + [n]) == AspectsOf(names)
    ensures CategoriesOf(names + [n]) == CategoriesOf(names)
  {
    assert (names + [n])[..|names|] == names;
    assert FirstSeen(names + [n]) == FirstSeen(names);
  }

  /** Offering a new name appends one aspect and one category, with id one
      more than the number of aspects so far. */
  lemma {:induction false} OfferNew(names: seq<string>, n: string)
    requires n !in names
    ensures AspectsOf(names + [n]) == AspectsOf(names) + [Aspect(n, |AspectsOf(names)| + 1)]
    ensures CategoriesOf(names + [n]) == CategoriesOf(names) + [Category(|AspectsOf(names)| + 1, n)]
  {
    assert (names + [n])[..|names|] == names;
    assert FirstSeen(names + [n]) == FirstSeen(names) + [n];
  }

  /** The registry of the generator script: `allAspects` and the dataset's
      category list, filled by addAspectToAllAspects. */
  class Registry {
    var aspects: seq<Aspect>
    var categories: seq<Category>
    /** Every name offered so far, repeats included. */
    ghost var offered: seq<string>

    ghost predicate Valid()
      reads this
    {
      aspects == AspectsOf(offered) && categories == CategoriesOf(offered)
    }

    /** The category list starts with the free hexagon, id 0. */
    constructor ()
      ensures Valid() && offered == []
      ensures aspects == [] && categories == [FreeHex]
    {
      aspects := [];
      categories := [FreeHex];
      offered := [];
    }

    /** addAspectToAllAspects: a name already present is ignored; a new name
        becomes aspect and category number len(allAspects) + 1. */
    method Add(name: string)
      requires Valid()
      modifies this
      ensures Valid() && offered == old(offered) + [name]
      ensures (exists k :: 0 <= k < |old(aspects)| && old(aspects)[k].name == name) ==>
        aspects == old(aspects) && categories == old(categories)
      ensures (forall k :: 0 <= k < |old(aspects)| ==> old(aspects)[k].name != name) ==>
        aspects == old(aspects) + [Aspect(name, |old(aspects)| + 1)] &&
        categories == old(categories) + [Category(|old(aspects)| + 1, name)]
    {
      CatalogueShape(offered);
      var i := 0;
      while i < |aspects|
        invariant 0 <= i <= |aspects|
        invariant forall k :: 0 <= k < i ==> aspects[k].name != name
      {
        if aspects[i].name == name {
          OfferKnown(offered, name);
          offered := offered + [name];
          return;
        }
        i := i + 1;
      }
      OfferNew(offered, name);
      var id := |aspects| + 1;
      aspects := aspects + [Aspect(name, id)];
      categories := categories + [Category(id, name)];
      offered := offered + [name];
    }

    /** Offers every name of the list, in order. */
    method AddAll(names: seq<string>)
      requires Valid()
      modifies this
      ensures Valid() && offered == old(offered) + names
    {
      var i := 0;
      while i < |names|
        invariant 0 <= i <= |names|
        invariant Valid() && offered == old(offered) + names[..i]
      {
        Add(names[i]);
        assert names[..i + 1] == names[..i] + [names[i]];
        i := i + 1;
      }
    }

    /** The loop over the original recipes file: every game version's
        recipe table, in file order. */
    method AddVersions(versions: Config)
      requires Valid()
      modifies this
      ensures Valid() && offered == old(offered) + AllNames(versions)
    {
      var v := 0;
      while v < |versions|
        invariant 0 <= v <= |versions|
        invariant Valid() && offered == old(offered) + AllNames(versions[..v])
      {
        AddAll(versions[v].1);
        assert versions[..v + 1][..v] == versions[..v];
        v := v + 1;
      }
      assert versions[..|versions|] == versions;
    }

    /** The loop over the addons file: the recipe tables of the enabled
        addons, in file order; the others are skipped. */
    method AddAddons(sections: Config, enabled: set<string>)
      requires Valid()
      modifies this
      ensures Valid() && offered == old(offered) + EnabledNames(sections, enabled)
    {
      var s := 0;
      while s < |sections|
        invariant 0 <= s <= |sections|
        invariant Valid() && offered == old(offered) + EnabledNames(sections[..s], enabled)
      {
        assert sections[..s + 1][..s] == sections[..s];
        if sections[s].0 in enabled {
          AddAll(sections[s].1);
        }
        s := s + 1;
      }
      assert sections[..|sections|] == sections;
    }

    /** The catalogue loading of the script: the original recipes file when
        "original" is enabled, then every enabled addon's section of the
        addons file. A configuration that could not be read (None) makes
        the script fail at `.items()`; `ok` is false then. */
    method Load(original: Option<Config>, addons: Option<Config>, enabled: set<string>) returns (ok: bool)
      requires Valid()
      modifies this
      ensures Valid()
      ensures ok == CatalogueNames(original, addons, enabled).Some?
      ensures ok ==> offered == old(offered) + CatalogueNames(original, addons, enabled).value
    {
      if "original" in enabled {
        if original.None? {
          return false;
        }
        AddVersions(original.value);
      }
      if addons.None? {
        return false;
      }
      AddAddons(addons.value, enabled);
      ok := true;
    }
  }

  /** A parsed recipes file: its top-level keys in file order (game versions,
      or addon names), each with the aspect names of its recipe table in order. */
  type Config = seq<(string, seq<string>)>

  /** All aspect names of a configuration, section by section. */
  function AllNames(c: Config): seq<string> {
    if c == [] then [] else AllNames(c[..|c| - 1]) + c[|c| - 1].1
  }

  /** The aspect names of the enabled sections only. */
  function EnabledNames(c: Config, enabled: set<string>): seq<string> {
    if c == [] then []
    else EnabledNames(c[..|c| - 1], enabled) + (if c[|c| - 1].0 in enabled then c[|c| - 1].1 else [])
  }

  /** The names the script offers to the registry, or None when it fails
      because a configuration it reads is missing. */
  function CatalogueNames(original: Option<Config>, addons: Option<Config>, enabled: set<string>): Option<seq<string>> {
    if "original" in enabled && original.None? then None
    else if addons.None? then None
    else Some((if "original" in enabled then AllNames(original.value) else []) + EnabledNames(addons.value, enabled))
  }

  /** A name is offered exactly when it is in the original recipes and
      "original" is enabled, or in the section of an enabled addon; an addon
      that is not enabled contributes nothing. */
  lemma CatalogueMembers(original: Option<Config>, addons: Option<Config>, enabled: set<string>, n: string)
    requires CatalogueNames(original, addons, enabled).Some?
    ensures n in CatalogueNames(original, addons, enabled).value <==>
      ("original" in enabled && exists k :: 0 <= k < |original.value| && n in original.value[k].1) ||
      (exists k :: 0 <= k < |addons.value| && addons.value[k].0 in enabled && n in addons.value[k].1)
  {
    if "original" in enabled {
      AllNamesMembers(original.value, n);
    }
    EnabledNamesMembers(addons.value, enabled, n);
  }

  lemma {:induction false} AllNamesMembers(c: Config, n: string)
    ensures n in AllNames(c) <==> exists k :: 0 <= k < |c| && n in c[k].1
  {
    if c != [] {
      var init := c[..|c| - 1];
      AllNamesMembers(init, n);
      if n in AllNames(c) && n !in c[|c| - 1].1 {
        var k :| 0 <= k < |init| && n in init[k].1;
        assert c[k] == init[k];
      }
      if exists k :: 0 <= k < |c| && n in c[k].1 {
        var k :| 0 <= k < |c| && n in c[k].1;
        if k < |c| - 1 {
          assert init[k] == c[k];
        }
      }
    }
  }

  lemma {:induction false} EnabledNamesMembers(c: Config, enabled: set<string>, n: string)
    ensures n in EnabledNames(c, enabled) <==> exists k :: 0 <= k < |c| && c[k].0 in enabled && n in c[k].1
  {
    if c != [] {
      var init := c[..|c| - 1];
      var last := c[|c| - 1];
      EnabledNamesMembers(init, enabled, n);
      if n in EnabledNames(c, enabled) && !(last.0 in enabled && n in last.1) {
        var k :| 0 <= k < |init| && init[k].0 in enabled && n in init[k].1;
        assert c[k] == init[k];
      }
      if exists k :: 0 <= k < |c| && c[k].0 in enabled && n in c[k].1 {
        var k :| 0 <= k < |c| && c[k].0 in enabled && n in c[k].1;
        if k < |c| - 1 {
          assert init[k] == c[k];
        }
      }
    }
  }
}

/**
 * `BladeConfig`: the configuration sections (each a map from item name to a
 * value, starting from built-in defaults) and the way a section call in a
 * configuration file such as `cc_config(append=..., **kwargs)` updates them:
 * first the `append` items are added to list-valued items, then the keyword
 * items replace known items, and unknown item names are dropped with a
 * warning.
 */
module Config {

  import opened Wrappers
  import opened Strings

  /** A Python value given in a configuration file or held as a default. */
  datatype Value =
    | Str(s: string)
    | Int(i: int)
    | Bool(b: bool)
    | Null
    | List(items: seq<Value>)
    | Set(elems: set<Value>)

  /** One section: item name to value. */
  type Section = map<string, Value>

  /** All sections, by section name. */
  type Sections = map<string, Section>

  /** What a reported warning or error is about; the message text is not modelled. */
  datatype Diag =
    | UnknownSection(section: string)
    | NotAList(section: string, item: string)
    | UnknownItem(section: string, item: string)
    | InvalidValue(item: string)
    | ChangedToList(section: string, item: string)

  /** Python truthiness: empty strings, collections, zero, `False` and `None` are false. */
  predicate Truthy(v: Value)
  {
    match v
    case Str(s) => s != ""
    case Int(i) => i != 0
    case Bool(b) => b
    case Null => false
    case List(items) => items != []
    case Set(elems) => elems != {}
  }

  /** A value Python can put in a set: lists and sets are unhashable. */
  predicate Hashable(v: Value)
  {
    !v.List? && !v.Set?
  }

  /**
   * The values Python's `set(...)` accepts: a string, a set, or a list whose
   * items are all hashable.
   */
  predicate SetAccepts(v: Value)
  {
    v.Str? || v.Set? || (v.List? && forall x | x in v.items :: Hashable(x))
  }

  /** Python's `set(v)`; `None` where Python raises `TypeError`. */
  function SetOf(v: Value): Option<Value>
  {
    match v
    case Str(s) => Some(Set(set c | c in s :: Str([c])))
    case List(items) => if forall x | x in items :: Hashable(x) then Some(Set(Elems(items))) else None
    case Set(_) => Some(v)
    case _ => None
  }

  /**
   * A user value as stored over the default `default`: through `var_to_list`
   * over a list default, through `set(...)` over a set default, unchanged
   * otherwise.
   */
  function Coerce(default: Value, v: Value, toList: Value -> seq<Value>): Option<Value>
  {
    if default.List? then Some(List(toList(v)))
    else if default.Set? then SetOf(v)
    else Some(v)
  }

  /**
   * Only a set coercion can fail, and only on a value `set(...)` rejects (not
   * iterable, or a list holding a list or a set); a
   * coerced value has the type of its default, a set keeps exactly the
   * elements of the list it came from, and items of any other type are
   * stored as given.
   */
  lemma CoerceShape(default: Value, v: Value, toList: Value -> seq<Value>)
    ensures Coerce(default, v, toList).None? <==> default.Set? && !SetAccepts(v)
    ensures Coerce(default, v, toList).Some? && default.List? ==> Coerce(default, v, toList).value.List?
    ensures Coerce(default, v, toList).Some? && default.Set? ==> Coerce(default, v, toList).value.Set?
    ensures default.Set? && v.List? && SetAccepts(v) ==> forall x :: x in Coerce(default, v, toList).value.elems <==> x in v.items
    ensures default.Set? && v.Set? ==> Coerce(default, v, toList) == Some(v)
    ensures !default.List? && !default.Set? ==> Coerce(default, v, toList) == Some(v)
  {
  }

  // ---------------------------------------------------------------------------
  // The diagnostics log
  // ---------------------------------------------------------------------------

  /** `after` is `before` with more entries at the end. */
  predicate Extends(before: seq<Diag>, after: seq<Diag>)
  {
    |before| <= |after| && after[..|before|] == before
  }

  /**
   * `after` is `before` followed by reports of exactly the diagnostics `ds`,
   * each as many times as `ds` holds it, in some order.
   */
  predicate Logged(before: seq<Diag>, after: seq<Diag>, ds: multiset<Diag>)
  {
    Extends(before, after) && multiset(after[|before|..]) == ds
  }

  lemma LoggedNothing(log: seq<Diag>)
    ensures Logged(log, log, multiset{})
  {
    assert log[|log|..] == [];
  }

  lemma LoggedThen(a: seq<Diag>, b: seq<Diag>, c: seq<Diag>, ds: multiset<Diag>, es: multiset<Diag>)
    requires Logged(a, b, ds) && Logged(b, c, es)
    ensures Logged(a, c, ds + es)
  {
    assert c[..|a|] == b[..|a|];
    assert c[|a|..] == b[|a|..] + c[|b|..];
  }

  /**
   * `after` is `before` followed first by the reports `ds`, in some order,
   * then by the reports `es`, in some order.
   */
  predicate LoggedInTurn(before: seq<Diag>, after: seq<Diag>, ds: multiset<Diag>, es: multiset<Diag>)
  {
    && Extends(before, after)
    && |after| == |before| + |ds| + |es|
    && multiset(after[|before|..|before| + |ds|]) == ds
    && multiset(after[|before| + |ds|..]) == es
  }

  lemma LoggedThenInTurn(a: seq<Diag>, b: seq<Diag>, c: seq<Diag>, ds: multiset<Diag>, es: multiset<Diag>)
    requires Logged(a, b, ds) && Logged(b, c, es)
    ensures Logged(a, c, ds + es)
    ensures LoggedInTurn(a, c, ds, es)
  {
    LoggedThen(a, b, c, ds, es);
    assert |ds| == |b| - |a| && |es| == |c| - |b|;
    assert c[|a|..|b|] == b[|a|..];
  }

  /** Adding a new element to a set adds it once to the set's multiset. */
  lemma MultisetAddNew(ds: set<Diag>, d: Diag)
    requires d !in ds
    ensures multiset(ds + {d}) == multiset(ds) + multiset{d}
  {
  }

  // ---------------------------------------------------------------------------
  // What `_append_config`, `_replace_config` and `update_config` compute
  // ---------------------------------------------------------------------------

  /**
   * `section` after `_append_config` has gone through the names in `keys`:
   * each list-valued item among them is extended by `var_to_list` of its
   * appended value.
   */
  function AppendedOn(section: Section, append: Section, keys: set<string>, toList: Value -> seq<Value>): Section
  {
    map k | k in section ::
      if k in keys && k in append && section[k].List? then List(section[k].items + toList(append[k])) else section[k]
  }

  /** `section` after `_append_config`. */
  function Appended(section: Section, append: Section, toList: Value -> seq<Value>): Section
  {
    AppendedOn(section, append, append.Keys, toList)
  }

  lemma AppendedKeys(section: Section, append: Section, toList: Value -> seq<Value>)
    ensures Appended(section, append, toList).Keys == section.Keys
  {
  }

  /**
   * Appending keeps the item names, keeps every list's old contents as a
   * prefix followed by the appended values, and leaves everything else as it
   * was.
   */
  lemma AppendedShape(section: Section, append: Section, toList: Value -> seq<Value>)
    ensures Appended(section, append, toList).Keys == section.Keys
    ensures forall k | k in section && section[k].List? ::
              && Appended(section, append, toList)[k].List?
              && |section[k].items| <= |Appended(section, append, toList)[k].items|
              && Appended(section, append, toList)[k].items[..|section[k].items|] == section[k].items
    ensures forall k | k in section && k in append && section[k].List? ::
              Appended(section, append, toList)[k].items[|section[k].items|..] == toList(append[k])
    ensures forall k | k in section && (k !in append || !section[k].List?) ::
              Appended(section, append, toList)[k] == section[k]
  {
    var r := Appended(section, append, toList);
    forall k | k in section && k in append && section[k].List?
      ensures r[k].items[..|section[k].items|] == section[k].items
      ensures r[k].items[|section[k].items|..] == toList(append[k])
    {
      assert r[k].items == section[k].items + toList(append[k]);
    }
  }

  /** The warnings `_append_config` reports for the names `keys`: items that are not lists, and unknown items. */
  function AppendDiags(name: string, section: Section, keys: set<string>): set<Diag>
  {
    (set k | k in keys && k in section && !section[k].List? :: NotAList(name, k))
    + (set k | k in keys && k !in section :: UnknownItem(name, k))
  }

  /** Every known item of `user` can be coerced to the type of its default. */
  predicate Coercible(section: Section, user: Section, toList: Value -> seq<Value>)
  {
    forall k | k in user && k in section :: Coerce(section[k], user[k], toList).Some?
  }

  /**
   * `section` after `_replace_config`: every known item of `user`, coerced,
   * replaces the default; `None` when a coercion raises `TypeError`.
   */
  function Replaced(section: Section, user: Section, toList: Value -> seq<Value>): Option<Section>
  {
    if Coercible(section, user, toList) then
      Some(section + map k | k in user && k in section :: Coerce(section[k], user[k], toList).value)
    else None
  }

  /**
   * Replacing fails exactly when a set-valued item is given a value `set(...)`
   * rejects; otherwise it never adds an item name, every supplied known item
   * holds the coerced user value and every other item is unchanged.
   */
  lemma ReplacedShape(section: Section, user: Section, toList: Value -> seq<Value>)
    ensures Replaced(section, user, toList).Some?
            <==> forall k | k in user && k in section :: !(section[k].Set? && !SetAccepts(user[k]))
    ensures Replaced(section, user, toList).Some? ==> Replaced(section, user, toList).value.Keys == section.Keys
    ensures Replaced(section, user, toList).Some? ==>
              forall k | k in section && k !in user :: Replaced(section, user, toList).value[k] == section[k]
    ensures Replaced(section, user, toList).Some? ==>
              forall k | k in section && k in user ::
                Some(Replaced(section, user, toList).value[k]) == Coerce(section[k], user[k], toList)
  {
    forall k | k in user && k in section {
      CoerceShape(section[k], user[k], toList);
    }
  }

  /** The warnings `_replace_config` reports for the names `keys`: unknown items. */
  function ReplaceDiags(name: string, section: Section, keys: set<string>): set<Diag>
  {
    set k | k in keys && k !in section :: UnknownItem(name, k)
  }

  /** `configs.get(name)` is truthy: the section exists and is not empty. */
  predicate Present(configs: Sections, name: string)
  {
    name in configs && configs[name] != map[]
  }

  /** Whether `update_config` completes (no `TypeError` from a set coercion). */
  function UpdateSucceeds(configs: Sections, name: string, append: Section, user: Section,
                          toList: Value -> seq<Value>): bool
  {
    !Present(configs, name) || Replaced(Appended(configs[name], append, toList), user, toList).Some?
  }

  /**
   * The sections after `update_config`: an absent or empty section changes
   * nothing; otherwise the section is appended to and then replaced (or only
   * appended to, when a coercion raises).
   */
  function AfterUpdate(configs: Sections, name: string, append: Section, user: Section,
                       toList: Value -> seq<Value>): Sections
  {
    if !Present(configs, name) then configs
    else
      var appended := Appended(configs[name], append, toList);
      match Replaced(appended, user, toList)
      case Some(s) => configs[name := s]
      case None => configs[name := appended]
  }

  /** Appending adds no item, so it leaves the unknown-item warnings of a replace as they were. */
  lemma ReplaceDiagsAfterAppend(name: string, section: Section, append: Section, keys: set<string>,
                                toList: Value -> seq<Value>)
    ensures ReplaceDiags(name, Appended(section, append, toList), keys) == ReplaceDiags(name, section, keys)
  {
    AppendedKeys(section, append, toList);
  }

  lemma AfterUpdatePresent(configs: Sections, name: string, append: Section, user: Section,
                           toList: Value -> seq<Value>)
    requires Present(configs, name)
    ensures Replaced(Appended(configs[name], append, toList), user, toList).Some? ==>
              AfterUpdate(configs, name, append, user, toList)
              == configs[name := Replaced(Appended(configs[name], append, toList), user, toList).value]
    ensures Replaced(Appended(configs[name], append, toList), user, toList).None? ==>
              AfterUpdate(configs, name, append, user, toList) == configs[name := Appended(configs[name], append, toList)]
  {
  }

  /**
   * `update_config` never adds a section or an item name, and changes no
   * section but the one named.
   */
  lemma UpdateKeepsNames(configs: Sections, name: string, append: Section, user: Section,
                         toList: Value -> seq<Value>)
    ensures AfterUpdate(configs, name, append, user, toList).Keys == configs.Keys
    ensures forall n | n in configs :: AfterUpdate(configs, name, append, user, toList)[n].Keys == configs[n].Keys
    ensures forall n | n in configs && n != name :: AfterUpdate(configs, name, append, user, toList)[n] == configs[n]
  {
    if Present(configs, name) {
      var appended := Appended(configs[name], append, toList);
      AppendedShape(configs[name], append, toList);
      ReplacedShape(appended, user, toList);
    }
  }

  /**
   * Append is applied before replace: an item named in both ends with the
   * coerced replacing value, and whether the update completes does not
   * depend on what was appended.
   */
  lemma AppendThenReplace(section: Section, append: Section, user: Section, toList: Value -> seq<Value>)
    ensures Replaced(Appended(section, append, toList), user, toList).Some? <==> Replaced(section, user, toList).Some?
    ensures Replaced(section, user, toList).Some? ==>
              forall k | k in section && k in user ::
                Replaced(Appended(section, append, toList), user, toList).value[k] == Replaced(section, user, toList).value[k]
  {
    var appended := Appended(section, append, toList);
    AppendedShape(section, append, toList);
    ReplacedShape(section, user, toList);
    ReplacedShape(appended, user, toList);
    forall k | k in section
      ensures appended[k].List? == section[k].List? && appended[k].Set? == section[k].Set?
    {
    }
    if Replaced(section, user, toList).Some? {
      forall k | k in section && k in user
        ensures Coerce(appended[k], user[k], toList) == Coerce(section[k], user[k], toList)
      {
      }
    }
  }

  /** An update with nothing to append is a plain replace. */
  lemma AppendNothing(section: Section, toList: Value -> seq<Value>)
    ensures Appended(section, map[], toList) == section
  {
  }

  // ---------------------------------------------------------------------------
  // Keyword rewriting in `cc_config` and `proto_library_config`
  // ---------------------------------------------------------------------------

  /** The words of `s`, as Python's `s.split()` gives them, as a list value. */
  function Words(s: string): (r: Value)
    ensures r.List? && |r.items| == |SplitWords(s)|
    ensures forall i | 0 <= i < |r.items| :: r.items[i] == Str(SplitWords(s)[i]) && IsWord(r.items[i].s)
  {
    var ws := SplitWords(s);
    List(seq(|ws|, i requires 0 <= i < |ws| => Str(ws[i])))
  }

  /** Splitting a string of words joined by single spaces gives back the words. */
  lemma WordsJoin(ws: seq<string>)
    requires forall w :: w in ws ==> IsWord(w)
    ensures Words(Join(ws, " ")) == List(seq(|ws|, i requires 0 <= i < |ws| => Str(ws[i])))
  {
    SplitWordsJoin(ws);
  }

  /** The keyword `key` holds a string with a space in it. */
  predicate SpaceSeparated(kwargs: Section, key: string)
  {
    key in kwargs && kwargs[key].Str? && ' ' in kwargs[key].s
  }

  /** `cc_config` turns an `extra_incs` string holding a space into the list of its words. */
  function CcKwargs(kwargs: Section): (r: Section)
    ensures r.Keys == kwargs.Keys
    ensures forall k | k in kwargs && k != "extra_incs" :: r[k] == kwargs[k]
    ensures SpaceSeparated(kwargs, "extra_incs") ==> r["extra_incs"] == Words(kwargs["extra_incs"].s)
    ensures !SpaceSeparated(kwargs, "extra_incs") ==> r == kwargs
  {
    if SpaceSeparated(kwargs, "extra_incs") then kwargs["extra_incs" := Words(kwargs["extra_incs"].s)]
    else kwargs
  }

  /**
   * `proto_library_config` renames a truthy `protobuf_include_path` to
   * `protobuf_incs`: the words of a string holding a space, or else a list of
   * the one value.
   */
  function ProtoKwargs(kwargs: Section): (r: Section)
    ensures "protobuf_include_path" in kwargs && Truthy(kwargs["protobuf_include_path"]) ==>
              && "protobuf_include_path" !in r
              && r.Keys == kwargs.Keys - {"protobuf_include_path"} + {"protobuf_incs"}
              && r["protobuf_incs"] == (if SpaceSeparated(kwargs, "protobuf_include_path")
                                        then Words(kwargs["protobuf_include_path"].s)
                                        else List([kwargs["protobuf_include_path"]]))
    ensures !("protobuf_include_path" in kwargs && Truthy(kwargs["protobuf_include_path"])) ==> r == kwargs
    ensures forall k | k in kwargs && k != "protobuf_include_path" && k != "protobuf_incs" :: k in r && r[k] == kwargs[k]
  {
    if "protobuf_include_path" in kwargs && Truthy(kwargs["protobuf_include_path"]) then
      var path := kwargs["protobuf_include_path"];
      var incs := if SpaceSeparated(kwargs, "protobuf_include_path") then Words(path.s) else List([path]);
      (kwargs - {"protobuf_include_path"})["protobuf_incs" := incs]
    else kwargs
  }

  /**
   * After `proto_library_config` with a truthy `protobuf_include_path`, the
   * section holds the renamed value under `protobuf_incs` (when `var_to_list`
   * keeps the list as it is) and never the old name.
   */
  lemma ProtoIncludePathRenamed(configs: Sections, append: Section, kwargs: Section, toList: Value -> seq<Value>)
    requires Present(configs, "proto_library_config")
    requires "protobuf_incs" in configs["proto_library_config"] && configs["proto_library_config"]["protobuf_incs"].List?
    requires "protobuf_include_path" !in configs["proto_library_config"]
    requires "protobuf_include_path" in kwargs && Truthy(kwargs["protobuf_include_path"])
    requires UpdateSucceeds(configs, "proto_library_config", append, ProtoKwargs(kwargs), toList)
    requires toList(ProtoKwargs(kwargs)["protobuf_incs"]) == ProtoKwargs(kwargs)["protobuf_incs"].items
    ensures "protobuf_include_path" !in AfterUpdate(configs, "proto_library_config", append, ProtoKwargs(kwargs), toList)["proto_library_config"]
    ensures AfterUpdate(configs, "proto_library_config", append, ProtoKwargs(kwargs), toList)["proto_library_config"]["protobuf_incs"]
            == ProtoKwargs(kwargs)["protobuf_incs"]
  {
    var section := configs["proto_library_config"];
    var user := ProtoKwargs(kwargs);
    var appended := Appended(section, append, toList);
    assert appended["protobuf_incs"].List?;
    var r := Replaced(appended, user, toList).value;
    assert Some(r["protobuf_incs"]) == Coerce(appended["protobuf_incs"], user["protobuf_incs"], toList);
  }

  /**
   * What `cc_config` reports before it updates the section: an invalid
   * `hdr_dep_missing_severity`, then the change of `extra_incs` to a list.
   */
  function CcReports(kwargs: Section): seq<Diag>
  {
    (if InvalidEnum(kwargs, "hdr_dep_missing_severity", HdrDepMissingSeverities)
     then [InvalidValue("hdr_dep_missing_severity")] else [])
    + (if SpaceSeparated(kwargs, "extra_incs") then [ChangedToList("cc_config", "extra_incs")] else [])
  }

  /** What `proto_library_config` reports before it updates the section: the renaming of `protobuf_include_path`. */
  function ProtoReports(kwargs: Section): seq<Diag>
  {
    if "protobuf_include_path" in kwargs && Truthy(kwargs["protobuf_include_path"])
    then [ChangedToList("proto_library_config", "protobuf_include_path")] else []
  }

  /** `_check_kwarg_enum_value` rejects the value of `name`. */
  predicate InvalidEnum(kwargs: Section, name: string, valid: set<Value>)
  {
    name in kwargs && kwargs[name] != Null && kwargs[name] !in valid
  }

  /** The values `cc_config` accepts for `hdr_dep_missing_severity`. */
  const HdrDepMissingSeverities: set<Value> := {Str("debug"), Str("info"), Str("warning"), Str("error")}

  // ---------------------------------------------------------------------------
  // The configuration object
  // ---------------------------------------------------------------------------

  class BladeConfig {
    var configs: Sections
    var diagnostics: seq<Diag>

    /** The configuration holding the built-in defaults. */
    constructor(defaults: Sections)
      ensures configs == defaults && diagnostics == []
    {
      configs := defaults;
      diagnostics := [];
    }

    /** `get_section`: `None` where Python raises `KeyError`. */
    function GetSection(name: string): (r: Option<Section>)
      reads this
      ensures r.Some? <==> name in configs
      ensures r.Some? ==> r.value == configs[name]
    {
      if name in configs then Some(configs[name]) else None
    }

    /** `get_item`: `None` where Python raises `KeyError`, for the section or the item. */
    function GetItem(name: string, item: string): (r: Option<Value>)
      reads this
      ensures r.Some? <==> GetSection(name).Some? && item in GetSection(name).value
      ensures r.Some? ==> r.value == configs[name][item]
    {
      match GetSection(name)
      case None => None
      case Some(section) => if item in section then Some(section[item]) else None
    }

    /** `_check_kwarg_enum_value`: an error exactly when the value is given, not `None` and not valid. */
    method CheckKwargEnumValue(kwargs: Section, name: string, valid: set<Value>)
      modifies this`diagnostics
      ensures diagnostics == old(diagnostics) + (if InvalidEnum(kwargs, name, valid) then [InvalidValue(name)] else [])
    {
      var value := if name in kwargs then kwargs[name] else Null;
      if value != Null && value !in valid {
        diagnostics := diagnostics + [InvalidValue(name)];
      }
    }

    /** `_append_config`, over the items of `append` in any order. */
    method AppendConfig(name: string, append: Section, toList: Value -> seq<Value>)
      requires name in configs
      modifies this
      ensures configs == old(configs)[name := Appended(old(configs)[name], append, toList)]
      ensures Logged(old(diagnostics), diagnostics, multiset(AppendDiags(name, old(configs)[name], append.Keys)))
    {
      var section, warned := AppendItems(name, configs[name], append, toList);
      LoggedAppend(diagnostics, warned);
      configs := configs[name := section];
      diagnostics := diagnostics + warned;
    }

    /**
     * `_replace_config`: coerce the known items, drop the unknown ones with a
     * warning, then merge. A set coercion that raises stops it before the
     * merge.
     */
    method ReplaceConfig(name: string, user: Section, toList: Value -> seq<Value>) returns (ok: bool)
      requires name in configs
      modifies this
      ensures ok <==> Replaced(old(configs)[name], user, toList).Some?
      ensures ok ==> configs == old(configs)[name := Replaced(old(configs)[name], user, toList).value]
      ensures !ok ==> configs == old(configs)
      ensures ok ==> Logged(old(diagnostics), diagnostics, multiset(ReplaceDiags(name, old(configs)[name], user.Keys)))
      ensures Extends(old(diagnostics), diagnostics)
    {
      var given, warned;
      ok, given, warned := CoerceItems(name, configs[name], user, toList);
      LoggedAppend(diagnostics, warned);
      diagnostics := diagnostics + warned;
      if ok {
        configs := configs[name := configs[name] + given];
      }
    }

    /** `update_config`. */
    method UpdateConfig(name: string, append: Section, user: Section, toList: Value -> seq<Value>) returns (ok: bool)
      modifies this
      ensures configs == AfterUpdate(old(configs), name, append, user, toList)
      ensures ok == UpdateSucceeds(old(configs), name, append, user, toList)
      ensures !Present(old(configs), name) ==> diagnostics == old(diagnostics) + [UnknownSection(name)]
      ensures Present(old(configs), name) && ok ==>
                Logged(old(diagnostics), diagnostics,
                       multiset(AppendDiags(name, old(configs)[name], append.Keys))
                       + multiset(ReplaceDiags(name, old(configs)[name], user.Keys)))
      ensures Present(old(configs), name) && ok ==>
                LoggedInTurn(old(diagnostics), diagnostics,
                             multiset(AppendDiags(name, old(configs)[name], append.Keys)),
                             multiset(ReplaceDiags(name, old(configs)[name], user.Keys)))
      ensures Extends(old(diagnostics), diagnostics)
    {
      if name in configs && configs[name] != map[] {
        ok := AppendThenReplaceConfig(name, append, user, toList);
      } else {
        diagnostics := diagnostics + [UnknownSection(name)];
        ok := true;
      }
    }

    /** The body of `update_config` for a section that is present: append, then replace. */
    method AppendThenReplaceConfig(name: string, append: Section, user: Section, toList: Value -> seq<Value>)
      returns (ok: bool)
      requires Present(configs, name)
      modifies this
      ensures configs == AfterUpdate(old(configs), name, append, user, toList)
      ensures ok == UpdateSucceeds(old(configs), name, append, user, toList)
      ensures ok ==> Logged(old(diagnostics), diagnostics,
                            multiset(AppendDiags(name, old(configs)[name], append.Keys))
                            + multiset(ReplaceDiags(name, old(configs)[name], user.Keys)))
      ensures ok ==> LoggedInTurn(old(diagnostics), diagnostics,
                                  multiset(AppendDiags(name, old(configs)[name], append.Keys)),
                                  multiset(ReplaceDiags(name, old(configs)[name], user.Keys)))
      ensures Extends(old(diagnostics), diagnostics)
    {
      ghost var section := configs[name];
      AppendIfGiven(name, append, toList);
      ghost var middle := diagnostics;
      ReplaceDiagsAfterAppend(name, section, append, user.Keys, toList);
      ok := ReplaceConfig(name, user, toList);
      AfterUpdatePresent(old(configs), name, append, user, toList);
      if ok {
        LoggedThenInTurn(old(diagnostics), middle, diagnostics, multiset(AppendDiags(name, section, append.Keys)),
                         multiset(ReplaceDiags(name, section, user.Keys)));
      } else {
        ExtendsThen(old(diagnostics), middle, diagnostics);
      }
    }

    /** `if append: self._append_config(...)`: an empty `append` is skipped. */
    method AppendIfGiven(name: string, append: Section, toList: Value -> seq<Value>)
      requires name in configs
      modifies this
      ensures configs == old(configs)[name := Appended(old(configs)[name], append, toList)]
      ensures Logged(old(diagnostics), diagnostics, multiset(AppendDiags(name, old(configs)[name], append.Keys)))
    {
      if append != map[] {
        AppendConfig(name, append, toList);
      } else {
        AppendNothing(configs[name], toList);
        LoggedNothing(diagnostics);
        assert AppendDiags(name, configs[name], append.Keys) == {};
        assert configs == configs[name := configs[name]];
      }
    }

    /** `cc_config`: check `hdr_dep_missing_severity`, split `extra_incs`, then update. */
    method CcConfig(append: Section, kwargs: Section, toList: Value -> seq<Value>) returns (ok: bool)
      modifies this
      ensures configs == AfterUpdate(old(configs), "cc_config", append, CcKwargs(kwargs), toList)
      ensures ok == UpdateSucceeds(old(configs), "cc_config", append, CcKwargs(kwargs), toList)
      ensures Extends(old(diagnostics) + CcReports(kwargs), diagnostics)
      ensures !Present(old(configs), "cc_config") ==>
                diagnostics == old(diagnostics) + CcReports(kwargs) + [UnknownSection("cc_config")]
      ensures Present(old(configs), "cc_config") && ok ==>
                Logged(old(diagnostics) + CcReports(kwargs), diagnostics,
                       multiset(AppendDiags("cc_config", old(configs)["cc_config"], append.Keys))
                       + multiset(ReplaceDiags("cc_config", old(configs)["cc_config"], kwargs.Keys)))
      ensures Present(old(configs), "cc_config") && ok ==>
                LoggedInTurn(old(diagnostics) + CcReports(kwargs), diagnostics,
                             multiset(AppendDiags("cc_config", old(configs)["cc_config"], append.Keys)),
                             multiset(ReplaceDiags("cc_config", old(configs)["cc_config"], kwargs.Keys)))
      ensures Extends(old(diagnostics), diagnostics)
      ensures InvalidEnum(kwargs, "hdr_dep_missing_severity", HdrDepMissingSeverities) ==>
                |diagnostics| > |old(diagnostics)| && diagnostics[|old(diagnostics)|] == InvalidValue("hdr_dep_missing_severity")
    {
      CheckKwargEnumValue(kwargs, "hdr_dep_missing_severity", HdrDepMissingSeverities);
      if SpaceSeparated(kwargs, "extra_incs") {
        diagnostics := diagnostics + [ChangedToList("cc_config", "extra_incs")];
      }
      ghost var rewritten := diagnostics;
      assert rewritten == old(diagnostics) + CcReports(kwargs);
      ok := UpdateConfig("cc_config", append, CcKwargs(kwargs), toList);
      assert Extends(old(diagnostics), rewritten);
      ExtendsThen(old(diagnostics), rewritten, diagnostics);
    }

    /** `proto_library_config`: rename `protobuf_include_path`, then update. */
    method ProtoLibraryConfig(append: Section, kwargs: Section, toList: Value -> seq<Value>) returns (ok: bool)
      modifies this
      ensures configs == AfterUpdate(old(configs), "proto_library_config", append, ProtoKwargs(kwargs), toList)
      ensures ok == UpdateSucceeds(old(configs), "proto_library_config", append, ProtoKwargs(kwargs), toList)
      ensures Extends(old(diagnostics) + ProtoReports(kwargs), diagnostics)
      ensures !Present(old(configs), "proto_library_config") ==>
                diagnostics == old(diagnostics) + ProtoReports(kwargs) + [UnknownSection("proto_library_config")]
      ensures Present(old(configs), "proto_library_config") && ok ==>
                Logged(old(diagnostics) + ProtoReports(kwargs), diagnostics,
                       multiset(AppendDiags("proto_library_config", old(configs)["proto_library_config"], append.Keys))
                       + multiset(ReplaceDiags("proto_library_config", old(configs)["proto_library_config"],
                                               ProtoKwargs(kwargs).Keys)))
      ensures Present(old(configs), "proto_library_config") && ok ==>
                LoggedInTurn(old(diagnostics) + ProtoReports(kwargs), diagnostics,
                             multiset(AppendDiags("proto_library_config", old(configs)["proto_library_config"], append.Keys)),
                             multiset(ReplaceDiags("proto_library_config", old(configs)["proto_library_config"],
                                                   ProtoKwargs(kwargs).Keys)))
    {
      if "protobuf_include_path" in kwargs && Truthy(kwargs["protobuf_include_path"]) {
        diagnostics := diagnostics + [ChangedToList("proto_library_config", "protobuf_include_path")];
      }
      ok := UpdateConfig("proto_library_config", append, ProtoKwargs(kwargs), toList);
    }
  }

  // ---------------------------------------------------------------------------
  // The loops of `_append_config` and `_replace_config`
  // ---------------------------------------------------------------------------

  /** Appending the reports `warned` logs exactly them. */
  lemma LoggedAppend(log: seq<Diag>, warned: seq<Diag>)
    ensures Logged(log, log + warned, multiset(warned))
  {
    assert (log + warned)[..|log|] == log;
    assert (log + warned)[|log|..] == warned;
  }

  /**
   * The state of the loop of `_append_config` once the names `done` have
   * been visited.
   */
  predicate AppendLoop(name: string, original: Section, append: Section, done: set<string>,
                       toList: Value -> seq<Value>, section: Section, warned: seq<Diag>)
  {
    section == AppendedOn(original, append, done, toList) && multiset(warned) == multiset(AppendDiags(name, original, done))
  }

  /**
   * The loop of `_append_config`, over the items of `append` in any order:
   * the section it leaves and the warnings it reports.
   */
  method AppendItems(name: string, original: Section, append: Section, toList: Value -> seq<Value>)
    returns (section: Section, warned: seq<Diag>)
    ensures section == Appended(original, append, toList)
    ensures multiset(warned) == multiset(AppendDiags(name, original, append.Keys))
  {
    section := original;
    warned := [];
    var todo := append.Keys;
    AppendLoopStart(name, original, append, toList);
    while todo != {}
      invariant todo <= append.Keys
      invariant AppendLoop(name, original, append, append.Keys - todo, toList, section, warned)
      decreases |todo|
    {
      var k :| k in todo;
      section, warned := AppendItem(name, original, append, todo, k, toList, section, warned);
      todo := todo - {k};
    }
    AppendLoopDone(name, original, append, todo, toList, section, warned);
  }

  /** Before the loop of `_append_config`, nothing is visited. */
  lemma AppendLoopStart(name: string, original: Section, append: Section, toList: Value -> seq<Value>)
    ensures AppendLoop(name, original, append, append.Keys - append.Keys, toList, original, [])
  {
    assert append.Keys - append.Keys == {};
    assert AppendedOn(original, append, {}, toList) == original;
    assert AppendDiags(name, original, {}) == {};
  }

  /** After the loop of `_append_config`, every item of `append` is visited. */
  lemma AppendLoopDone(name: string, original: Section, append: Section, todo: set<string>,
                       toList: Value -> seq<Value>, section: Section, warned: seq<Diag>)
    requires todo == {}
    requires AppendLoop(name, original, append, append.Keys - todo, toList, section, warned)
    ensures section == Appended(original, append, toList)
    ensures multiset(warned) == multiset(AppendDiags(name, original, append.Keys))
  {
    assert append.Keys - todo == append.Keys;
  }

  /** One iteration of the loop of `_append_config`: the item `k` of `append`. */
  method AppendItem(name: string, original: Section, append: Section, ghost todo: set<string>, k: string,
                    toList: Value -> seq<Value>, section: Section, warned: seq<Diag>)
    returns (section': Section, warned': seq<Diag>)
    requires todo <= append.Keys && k in todo
    requires AppendLoop(name, original, append, append.Keys - todo, toList, section, warned)
    ensures AppendLoop(name, original, append, append.Keys - (todo - {k}), toList, section', warned')
  {
    ghost var done := append.Keys - todo;
    assert append.Keys - (todo - {k}) == done + {k};
    AppendStep(original, append, done, k, toList);
    AppendDiagsStep(name, original, done, k);
    section', warned' := section, warned;
    if k in section {
      if section[k].List? {
        section' := section[k := List(section[k].items + toList(append[k]))];
      } else {
        MultisetAddNew(AppendDiags(name, original, done), NotAList(name, k));
        warned' := warned + [NotAList(name, k)];
      }
    } else {
      MultisetAddNew(AppendDiags(name, original, done), UnknownItem(name, k));
      warned' := warned + [UnknownItem(name, k)];
    }
  }

  /**
   * `given` is `user` with the known items among `done` coerced to the type
   * of their default.
   */
  predicate CoercedSoFar(section: Section, user: Section, done: set<string>, given: Section,
                         toList: Value -> seq<Value>)
  {
    && given.Keys == user.Keys
    && (forall k | k in done && k in user && k in section :: Coerce(section[k], user[k], toList) == Some(given[k]))
    && (forall k | k in user && (k !in done || k !in section) :: given[k] == user[k])
  }

  /**
   * The state of the first loop of `_replace_config` once the names `done`
   * have been visited: `given` holds their coerced known items, `unknown`
   * and `warned` their unknown names and the warnings about them.
   */
  predicate ReplaceLoop(name: string, section: Section, user: Section, done: set<string>, toList: Value -> seq<Value>,
                        given: Section, unknown: seq<string>, warned: seq<Diag>)
  {
    && CoercedSoFar(section, user, done, given, toList)
    && Elems(unknown) == UnknownNames(section, done)
    && multiset(warned) == multiset(ReplaceDiags(name, section, done))
  }

  /**
   * The loops of `_replace_config`, over the items of `user` in any order:
   * whether every coercion succeeded, the coerced known items, and the
   * warnings reported (all of them when it succeeded, those reported before
   * the failing coercion otherwise).
   */
  method CoerceItems(name: string, section: Section, user: Section, toList: Value -> seq<Value>)
    returns (ok: bool, given: Section, warned: seq<Diag>)
    ensures ok <==> Coercible(section, user, toList)
    ensures ok ==> Replaced(section, user, toList) == Some(section + given)
    ensures ok ==> multiset(warned) == multiset(ReplaceDiags(name, section, user.Keys))
    ensures Elems(warned) <= ReplaceDiags(name, section, user.Keys)
  {
    given := user;
    warned := [];
    var unknown: seq<string> := [];
    var todo := user.Keys;
    while todo != {}
      invariant todo <= user.Keys
      invariant ReplaceLoop(name, section, user, user.Keys - todo, toList, given, unknown, warned)
      decreases |todo|
    {
      var k :| k in todo;
      var coerced;
      coerced, given, unknown, warned := ReplaceItem(name, section, user, todo, k, toList, given, unknown, warned);
      if !coerced {
        return false, given, warned;
      }
      todo := todo - {k};
    }
    assert user.Keys - {} == user.Keys;
    forall d | d in Elems(warned) ensures d in ReplaceDiags(name, section, user.Keys) {
      assert d in multiset(warned);
    }
    ghost var coerced := given;
    given := DropUnknown(given, unknown);
    MergeCoerced(section, user, coerced, given, Elems(unknown), toList);
    ok := true;
  }

  /**
   * One iteration of the first loop of `_replace_config`: the item `k` of
   * `user`, coerced when it is known, reported and remembered when not.
   */
  method ReplaceItem(name: string, section: Section, user: Section, ghost todo: set<string>, k: string,
                     toList: Value -> seq<Value>, given: Section, unknown: seq<string>, warned: seq<Diag>)
    returns (ok: bool, given': Section, unknown': seq<string>, warned': seq<Diag>)
    requires todo <= user.Keys && k in todo
    requires ReplaceLoop(name, section, user, user.Keys - todo, toList, given, unknown, warned)
    ensures ok ==> ReplaceLoop(name, section, user, user.Keys - (todo - {k}), toList, given', unknown', warned')
    ensures !ok ==> !Coercible(section, user, toList)
    ensures !ok ==> Elems(warned') <= ReplaceDiags(name, section, user.Keys)
  {
    ghost var done := user.Keys - todo;
    assert user.Keys - (todo - {k}) == done + {k};
    ok, given', unknown', warned' := true, given, unknown, warned;
    if k in section {
      ReplaceKnownStep(name, section, done, k);
      assert UnknownNames(section, done + {k}) == UnknownNames(section, done);
      ok, given' := CoerceItem(section, user, done, k, toList, given);
      if !ok {
        ReplaceDiagsGrow(name, section, done, user.Keys);
        forall d | d in Elems(warned) ensures d in ReplaceDiags(name, section, user.Keys) {
          assert d in multiset(warned);
        }
      }
    } else {
      ReplaceUnknownStep(name, section, done, k);
      CoercedSoFarSkip(section, user, done, k, given, toList);
      MultisetAddNew(ReplaceDiags(name, section, done), UnknownItem(name, k));
      warned' := warned + [UnknownItem(name, k)];
      ElemsConcat(unknown, [k]);
      unknown' := unknown + [k];
    }
  }

  /** The second loop of `_replace_config`: delete the unknown names. */
  method DropUnknown(items: Section, unknown: seq<string>) returns (r: Section)
    ensures r == items - Elems(unknown)
  {
    r := items;
    for i := 0 to |unknown|
      invariant r.Keys == items.Keys - Elems(unknown[..i])
      invariant forall k | k in r :: r[k] == items[k]
    {
      assert unknown[..i + 1] == unknown[..i] + [unknown[i]];
      ElemsConcat(unknown[..i], [unknown[i]]);
      r := r - {unknown[i]};
    }
    assert unknown[..|unknown|] == unknown;
  }

  /** The names among `keys` that `section` does not know. */
  function UnknownNames(section: Section, keys: set<string>): set<string>
  {
    set k | k in keys && k !in section
  }

  /**
   * One iteration of the first loop of `_replace_config` for a known item
   * `k`: coerce it, or report that `set(...)` raised.
   */
  method CoerceItem(section: Section, user: Section, ghost done: set<string>, k: string,
                    toList: Value -> seq<Value>, given: Section)
    returns (ok: bool, given': Section)
    requires k in user && k in section && k !in done
    requires CoercedSoFar(section, user, done, given, toList)
    ensures ok ==> CoercedSoFar(section, user, done + {k}, given', toList)
    ensures !ok <==> Coerce(section[k], user[k], toList).None?
    ensures !ok ==> !Coercible(section, user, toList)
  {
    ok, given' := true, given;
    if section[k].List? {
      given' := given[k := List(toList(given[k]))];
    } else if section[k].Set? {
      var s := SetOf(given[k]);
      if s.None? {
        return false, given;
      }
      given' := given[k := s.value];
    }
  }

  lemma CoercedSoFarSkip(section: Section, user: Section, done: set<string>, k: string, given: Section,
                         toList: Value -> seq<Value>)
    requires k !in section
    requires CoercedSoFar(section, user, done, given, toList)
    ensures CoercedSoFar(section, user, done + {k}, given, toList)
  {
  }

  lemma ReplaceDiagsGrow(name: string, section: Section, done: set<string>, keys: set<string>)
    requires done <= keys
    ensures ReplaceDiags(name, section, done) <= ReplaceDiags(name, section, keys)
  {
  }

  // One loop iteration of the append and replace loops.

  lemma AppendStep(original: Section, append: Section, done: set<string>, k: string, toList: Value -> seq<Value>)
    requires k in append && k !in done
    ensures k in original ==> AppendedOn(original, append, done, toList)[k] == original[k]
    ensures k in original && original[k].List? ==>
              AppendedOn(original, append, done + {k}, toList)
              == AppendedOn(original, append, done, toList)[k := List(original[k].items + toList(append[k]))]
    ensures !(k in original && original[k].List?) ==>
              AppendedOn(original, append, done + {k}, toList) == AppendedOn(original, append, done, toList)
  {
    var a := AppendedOn(original, append, done, toList);
    var b := AppendedOn(original, append, done + {k}, toList);
    if k in original && original[k].List? {
      var c := a[k := List(original[k].items + toList(append[k]))];
      forall j | j in original ensures b[j] == c[j] {
      }
      assert b == c;
    } else {
      forall j | j in original ensures b[j] == a[j] {
      }
      assert b == a;
    }
  }

  lemma AppendDiagsStep(name: string, original: Section, done: set<string>, k: string)
    ensures k !in done ==> NotAList(name, k) !in AppendDiags(name, original, done)
    ensures k !in done ==> UnknownItem(name, k) !in AppendDiags(name, original, done)
    ensures k in original && !original[k].List? ==>
              AppendDiags(name, original, done + {k}) == AppendDiags(name, original, done) + {NotAList(name, k)}
    ensures k in original && original[k].List? ==>
              AppendDiags(name, original, done + {k}) == AppendDiags(name, original, done)
    ensures k !in original ==>
              AppendDiags(name, original, done + {k}) == AppendDiags(name, original, done) + {UnknownItem(name, k)}
  {
  }

  lemma ReplaceKnownStep(name: string, section: Section, done: set<string>, k: string)
    requires k in section
    ensures ReplaceDiags(name, section, done + {k}) == ReplaceDiags(name, section, done)
  {
  }

  lemma ReplaceUnknownStep(name: string, section: Section, done: set<string>, k: string)
    requires k !in section
    ensures ReplaceDiags(name, section, done + {k}) == ReplaceDiags(name, section, done) + {UnknownItem(name, k)}
    ensures k !in done ==> UnknownItem(name, k) !in ReplaceDiags(name, section, done)
  {
  }

  lemma ExtendsThen(a: seq<Diag>, b: seq<Diag>, c: seq<Diag>)
    requires Extends(a, b) && Extends(b, c)
    ensures Extends(a, c)
    ensures forall i | 0 <= i < |b| :: c[i] == b[i]
  {
    forall i | 0 <= i < |b| ensures c[i] == b[i] {
      assert c[..|b|][i] == c[i];
    }
    assert c[..|a|] == b[..|a|];
  }

  /**
   * After the loop of `_replace_config`, dropping the unknown items from the
   * coerced user items and merging gives `Replaced`.
   */
  lemma MergeCoerced(section: Section, user: Section, coerced: Section, given: Section, unknown: set<string>,
                     toList: Value -> seq<Value>)
    requires CoercedSoFar(section, user, user.Keys, coerced, toList)
    requires unknown == UnknownNames(section, user.Keys)
    requires given == coerced - unknown
    ensures Coercible(section, user, toList)
    ensures Replaced(section, user, toList) == Some(section + given)
  {
    var m := map k | k in user && k in section :: Coerce(section[k], user[k], toList).value;
    assert given.Keys == m.Keys;
    forall k | k in given ensures given[k] == m[k] {
    }
    assert given == m;
  }
}

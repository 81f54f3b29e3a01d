/**
 The spec-manifest matching rule of the ruby/spec runner: which embedded spec
 files are run for a parsed manifest. A spec is named by a relative path
 `family/suite/spec_name...`; the manifest maps a family and a suite to
 `All` (every spec, minus skipped prefixes), `Set` (only listed prefixes) or
 `None` (nothing).
 */
module SpecRunner {
  import Wrappers

  /** A suite of the manifest (`include = "all" | "set" | "none"`). */
  datatype Suite =
    | All(skip: Wrappers.Option<seq<string>>)
    | Set(specs: seq<string>)
    | None

  /** The suites configured for one family (`[specs.<family>.<suite>]`). */
  datatype Family = Family(name: string, suites: seq<(string, Suite)>)

  datatype Config = Config(families: seq<Family>)

  predicate IsPrefix(prefix: string, s: string) {
    |prefix| <= |s| && s[..|prefix|] == prefix
  }

  // ---------------------------------------------------------------------
  // Path components

  /** Index of the first '/' in `s`, or |s| when there is none. */
  function SegmentEnd(s: string): (k: nat)
    ensures k <= |s|
    ensures forall i :: 0 <= i < k ==> s[i] != '/'
    ensures k < |s| ==> s[k] == '/'
  {
    if |s| == 0 || s[0] == '/' then 0 else 1 + SegmentEnd(s[1..])
  }

  /**
   The normal components of a relative path: the pieces between '/'
   separators, with the empty pieces of repeated or trailing separators
   dropped.
   */
  function Components(name: string): (cs: seq<string>)
    ensures forall i :: 0 <= i < |cs| ==> IsComponent(cs[i])
    ensures cs == [] <==> forall i :: 0 <= i < |name| ==> name[i] == '/'
    decreases |name|
  {
    if |name| == 0 then []
    else
      var k := SegmentEnd(name);
      var rest := if k < |name| then Components(name[k + 1..]) else [];
      if k == 0 then rest else [name[..k]] + rest
  }

  predicate IsComponent(c: string) {
    c != "" && forall i :: 0 <= i < |c| ==> c[i] != '/'
  }

  /** Joins components with '/' separators. */
  function Join(cs: seq<string>): string {
    if |cs| == 0 then ""
    else if |cs| == 1 then cs[0]
    else cs[0] + "/" + Join(cs[1..])
  }

  lemma {:induction false} SegmentEndOfComponent(c: string, rest: string)
    requires IsComponent(c)
    requires rest == "" || rest[0] == '/'
    ensures SegmentEnd(c + rest) == |c|
    decreases |c|
  {
    if |c| > 1 {
      assert (c + rest)[1..] == c[1..] + rest;
      SegmentEndOfComponent(c[1..], rest);
    } else {
      assert (c + rest)[1..] == rest;
    }
  }

  /** Splitting a path built from components gives those components back. */
  lemma {:induction false} ComponentsOfJoin(cs: seq<string>)
    requires forall i :: 0 <= i < |cs| ==> IsComponent(cs[i])
    ensures Components(Join(cs)) == cs
  {
    if |cs| == 1 {
      SegmentEndOfComponent(cs[0], "");
      assert cs[0] + "" == cs[0];
    } else if |cs| > 1 {
      var name, tail := Join(cs), "/" + Join(cs[1..]);
      var k := |cs[0]|;
      assert name == cs[0] + tail;
      SegmentEndOfComponent(cs[0], tail);
      assert name[k + 1..] == Join(cs[1..]) && name[..k] == cs[0];
      ComponentsOfJoin(cs[1..]);
      assert Components(name) == [cs[0]] + cs[1..];
      assert cs == [cs[0]] + cs[1..];
    }
  }

  // ---------------------------------------------------------------------
  // The matching rule

  /** `config.suites_for_family(family)`: the suites of the first family of that name. */
  function SuitesForFamily(families: seq<Family>, family: string): (r: Wrappers.Option<seq<(string, Suite)>>)
    ensures r.Some? <==> exists i :: 0 <= i < |families| && families[i].name == family
    ensures r.Some? ==> exists i ::
      && 0 <= i < |families| && families[i].name == family && r.value == families[i].suites
      && forall j :: 0 <= j < i ==> families[j].name != family
  {
    if |families| == 0 then Wrappers.None
    else if families[0].name == family then Wrappers.Some(families[0].suites)
    else
      var r := SuitesForFamily(families[1..], family);
      assert forall i :: 1 <= i < |families| ==> families[i] == families[1..][i - 1];
      r
  }

  /** `suites.iter().find(|(name, _)| name == suite_name)`. */
  function FindSuite(suites: seq<(string, Suite)>, suiteName: string): (r: Wrappers.Option<Suite>)
    ensures r.Some? <==> exists i :: 0 <= i < |suites| && suites[i].0 == suiteName
    ensures r.Some? ==> exists i ::
      && 0 <= i < |suites| && suites[i].0 == suiteName && r.value == suites[i].1
      && forall j :: 0 <= j < i ==> suites[j].0 != suiteName
  {
    if |suites| == 0 then Wrappers.None
    else if suites[0].0 == suiteName then Wrappers.Some(suites[0].1)
    else
      var r := FindSuite(suites[1..], suiteName);
      assert forall i :: 1 <= i < |suites| ==> suites[i] == suites[1..][i - 1];
      r
  }

  /** `names.iter().any(|name| spec_name.starts_with(name))`. */
  function AnyPrefix(names: seq<string>, specName: string): bool {
    |names| > 0 && (IsPrefix(names[0], specName) || AnyPrefix(names[1..], specName))
  }

  /** The inner `Option<bool>` function of `is_require_path`, over path components. */
  function RequireInner(config: Config, cs: seq<string>): (r: Wrappers.Option<bool>)
    ensures r.Some? <==>
      && |cs| >= 3
      && SuitesForFamily(config.families, cs[0]).Some?
      && FindSuite(SuitesForFamily(config.families, cs[0]).value, cs[1]).Some?
  {
    if |cs| == 0 then Wrappers.None
    else
      match SuitesForFamily(config.families, cs[0])
      case None => Wrappers.None
      case Some(suites) =>
        if |cs| < 2 then Wrappers.None
        else
          match FindSuite(suites, cs[1])
          case None => Wrappers.None
          case Some(suite) =>
            if |cs| < 3 then Wrappers.None
            else
              var specName := cs[2];
              match suite
              case All(skip) =>
                var skipped := if skip.Some? then skip.value else [];
                if AnyPrefix(skipped, specName) then Wrappers.Some(false) else Wrappers.Some(true)
              case Set(specs) =>
                if AnyPrefix(specs, specName) then Wrappers.Some(true) else Wrappers.Some(false)
              case None => Wrappers.Some(false)
  }

  /** `is_require_path(config, name)`. */
  function IsRequirePath(config: Config, name: string): (r: bool)
    ensures r ==> |Components(name)| >= 3
  {
    RequireInner(config, Components(name)) == Wrappers.Some(true)
  }

  // ---------------------------------------------------------------------
  // Reference definition and characterisation

  /** Whether a suite admits a spec name, stated by quantifiers over its prefix lists. */
  predicate SuiteAdmits(suite: Suite, specName: string) {
    match suite
    case All(skip) =>
      skip.Some? ==> forall i :: 0 <= i < |skip.value| ==> !IsPrefix(skip.value[i], specName)
    case Set(specs) => exists i :: 0 <= i < |specs| && IsPrefix(specs[i], specName)
    case None => false
  }

  lemma {:induction false} AnyPrefixIsExists(names: seq<string>, specName: string)
    ensures AnyPrefix(names, specName) <==> exists i :: 0 <= i < |names| && IsPrefix(names[i], specName)
  {
    if |names| > 0 {
      AnyPrefixIsExists(names[1..], specName);
      if IsPrefix(names[0], specName) {
      } else if AnyPrefix(names[1..], specName) {
        var i :| 0 <= i < |names[1..]| && IsPrefix(names[1..][i], specName);
        assert names[i + 1] == names[1..][i];
      } else {
        forall i | 0 <= i < |names| ensures !IsPrefix(names[i], specName) {
          if i > 0 {
            assert names[i] == names[1..][i - 1];
          }
        }
      }
    }
  }

  /**
   A spec is required exactly when its name has at least three components, its
   family and suite are configured, and that suite admits the third component.
   */
  lemma RequirePathCharacterized(config: Config, name: string)
    ensures IsRequirePath(config, name) <==>
      var cs := Components(name);
      && |cs| >= 3
      && SuitesForFamily(config.families, cs[0]).Some?
      && FindSuite(SuitesForFamily(config.families, cs[0]).value, cs[1]).Some?
      && SuiteAdmits(FindSuite(SuitesForFamily(config.families, cs[0]).value, cs[1]).value, cs[2])
  {
    var cs := Components(name);
    if |cs| >= 3 {
      var fam := SuitesForFamily(config.families, cs[0]);
      if fam.Some? {
        var suite := FindSuite(fam.value, cs[1]);
        if suite.Some? {
          match suite.value
          case All(skip) =>
            var skipped := if skip.Some? then skip.value else [];
            AnyPrefixIsExists(skipped, cs[2]);
          case Set(specs) =>
            AnyPrefixIsExists(specs, cs[2]);
          case None =>
        }
      }
    }
  }

  /** Only the first three components are consulted. */
  lemma DeeperComponentsIgnored(config: Config, cs: seq<string>, deeper: seq<string>)
    requires |cs| == 3
    ensures RequireInner(config, cs + deeper) == RequireInner(config, cs)
  {
    assert (cs + deeper)[0] == cs[0] && (cs + deeper)[1] == cs[1] && (cs + deeper)[2] == cs[2];
  }

  // ---------------------------------------------------------------------
  // Selecting the specs to run

  /** A fixture or shared helper file: loaded as a source file, never run as a spec. */
  function IsFixtureOrShared(name: string): (r: bool)
    ensures r <==> exists i :: 0 <= i < |Components(name)| && Components(name)[i] in ["fixture", "shared"]
    ensures r ==> exists i :: 0 <= i < |name| && name[i] != '/'
  {
    var cs := Components(name);
    "fixture" in cs || "shared" in cs
  }

  predicate Selected(config: Config, name: string) {
    !IsFixtureOrShared(name) && IsRequirePath(config, name)
  }

  /** The specs the runner collects, in embedding order. */
  function SelectedSpecs(config: Config, names: seq<string>): (r: seq<string>)
    ensures |r| <= |names|
    ensures forall x :: x in r <==> x in names && Selected(config, x)
  {
    if |names| == 0 then []
    else
      var init, last := names[..|names| - 1], names[|names| - 1];
      assert names == init + [last];
      SelectedSpecs(config, init) + (if Selected(config, last) then [last] else [])
  }

  /** The loop of the runner's entry point that collects the specs to run. */
  method CollectSpecs(config: Config, names: seq<string>) returns (specs: seq<string>)
    ensures specs == SelectedSpecs(config, names)
  {
    specs := [];
    for i := 0 to |names|
      invariant specs == SelectedSpecs(config, names[..i])
    {
      assert names[..i + 1][..i] == names[..i];
      var name := names[i];
      if IsFixtureOrShared(name) {
        continue;
      }
      if IsRequirePath(config, name) {
        specs := specs + [name];
      }
    }
    assert names[..|names|] == names;
  }

  /** No fixture and no shared file is ever run as a spec. */
  lemma NoFixtureOrSharedSelected(config: Config, names: seq<string>)
    ensures forall x :: x in SelectedSpecs(config, names) ==> !IsFixtureOrShared(x)
  {
  }
}

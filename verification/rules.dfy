/** `DefaultOntologyRuleset`: the rule names of the default ruleset, the
    label types each rule admits, and the relation implied between two
    members of one category. */
module Rules {

  /** `rules`: every name listed in `rule_types`, the existential rules
      `is` and `inherit` and the combination rules `replace` and `block`. */
  const RuleNames: set<string> := {"is", "inherit", "replace", "block"}

  /** The label types `get_types` lists for a rule before expanding them:
      its `types` tuple. The `location` entry is listed by the source but
      never reached, `location` not being a rule name. */
  function Implied(rule: string): seq<string>
  {
    if rule == "is" then ["equal", "translation", "variant"]
    else if rule == "inherit" then ["is"]
    else if rule == "replace" then ["antonym"]
    else if rule == "location" then ["at", "in", "on", "near", "direction"]
    else []
  }

  /** A measure that every implied type lowers: the expansion of
      `get_types` terminates. */
  function Rank(rule: string): nat
  {
    if rule == "inherit" then 2
    else if rule == "is" || rule == "replace" || rule == "location" then 1
    else 0
  }

  lemma ImpliedRanksLower(rule: string)
    ensures forall t :: t in Implied(rule) ==> Rank(t) < Rank(rule)
  {
  }

  /** `get_types(rule)`: the rule itself followed by the expansion of every
      type it implies, in order; `()` for a name that is not a rule. */
  function GetTypes(rule: string): (t: seq<string>)
    ensures rule !in RuleNames <==> t == []
    ensures rule in RuleNames ==> t[0] == rule
    ensures forall x :: x in t ==> x in RuleNames
    decreases Rank(rule), 1
  {
    if rule !in RuleNames then []
    else
      ImpliedRanksLower(rule);
      [rule] + Expand(rule, Implied(rule))
  }

  /** `tuple(r for t in types for r in get_types(t))`. */
  function Expand(parent: string, types: seq<string>): (r: seq<string>)
    requires forall t :: t in types ==> Rank(t) < Rank(parent)
    ensures forall x :: x in r ==> x in RuleNames
    ensures forall t :: t in types && t in RuleNames ==> t in r
    decreases Rank(parent), 0, |types|
  {
    if types == [] then []
    else GetTypes(types[0]) + Expand(parent, types[1..])
  }

  /** An expansion of names none of which is a rule adds nothing. */
  lemma {:induction false} ExpandNoRules(parent: string, types: seq<string>)
    requires forall t :: t in types ==> Rank(t) < Rank(parent) && t !in RuleNames
    ensures Expand(parent, types) == []
    decreases |types|
  {
    if types != [] {
      assert types[0] in types;
      assert forall t :: t in types[1..] ==> t in types;
      ExpandNoRules(parent, types[1..]);
    }
  }

  lemma GetTypesOfIs()
    ensures GetTypes("is") == ["is"]
  {
    ExpandNoRules("is", Implied("is"));
  }

  lemma GetTypesOfInherit()
    ensures GetTypes("inherit") == ["inherit", "is"]
  {
    GetTypesOfIs();
    assert Expand("inherit", ["is"]) == GetTypes("is") + Expand("inherit", []);
  }

  lemma GetTypesOfReplace()
    ensures GetTypes("replace") == ["replace"]
  {
    ExpandNoRules("replace", Implied("replace"));
  }

  lemma GetTypesOfBlock()
    ensures GetTypes("block") == ["block"]
  {
    assert Implied("block") == [];
  }

  /** The types of every input: `inherit` admits `inherit` and `is`; the
      other rules admit only themselves; anything else admits nothing. */
  lemma GetTypesTable(rule: string)
    ensures rule == "inherit" ==> GetTypes(rule) == ["inherit", "is"]
    ensures rule in RuleNames && rule != "inherit" ==> GetTypes(rule) == [rule]
    ensures rule !in RuleNames ==> GetTypes(rule) == []
  {
    if rule == "inherit" {
      GetTypesOfInherit();
    } else if rule in RuleNames {
      GetTypesOfSingle(rule);
    }
  }

  /** The three rules other than `inherit` admit only themselves. */
  lemma GetTypesOfSingle(rule: string)
    requires rule in RuleNames && rule != "inherit"
    ensures GetTypes(rule) == [rule]
  {
    if rule == "is" {
      GetTypesOfIs();
    } else if rule == "replace" {
      GetTypesOfReplace();
    } else {
      assert rule == "block" by {
        assert rule in RuleNames - {"is", "inherit", "replace"};
      }
      GetTypesOfBlock();
    }
  }

  /** `inner_relation(attr)`: two members of one category exclude each
      other exactly when the category is `exclusive`. */
  function InnerRelation(attrs: seq<string>): (r: seq<string>)
    ensures "exclude" in r <==> "exclusive" in attrs
    ensures forall x :: x in r ==> x == "exclude"
    ensures |r| <= 1
  {
    if "exclusive" in attrs then ["exclude"] else []
  }
}

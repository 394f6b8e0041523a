/** Remapping of names: src/rcl/remap.h.

    Rules are checked in the order they were given, those of the node before those of the process;
    the first rule that matches decides.  Match and replacement of a rule are expanded against the
    node before they are compared or used.
 */
module Remap {

  import opened Common
  import opened TopicNames

  // ----- rules -----

  datatype Kind = Topic | Service | NodeName | NodeNamespace

  /** `node:pattern:=replacement`, for names of some kinds; the node may be left out.  Rules for node
      names and namespaces have no pattern. */
  datatype Rule = Rule(kinds: set<Kind>, node: Option<string>, pattern: string, replacement: string)

  /** The name of `kind` asked about, and the node it belongs to. */
  datatype Query = Query(kind: Kind, name: string, node: string, ns: string, subs: map<string, string>)

  datatype Error =
    | InvalidArgument | TopicNameInvalid | ServiceNameInvalid | NodeInvalidName | NodeInvalidNamespace | Failed

  datatype Outcome = NoMatch | Renamed(name: string) | Rejected(error: Error)

  predicate IsName(kind: Kind) {
    kind.Topic? || kind.Service?
  }

  /** A node-specific rule is only for its node. */
  predicate Applies(r: Rule, q: Query) {
    q.kind in r.kinds && (r.node.Some? ==> r.node.value == q.node)
  }

  function ExpandFor(text: string, q: Query): Expansion {
    Expand(text, q.node, q.ns, q.subs)
  }

  /** The rule is for this very name. */
  predicate Matches(r: Rule, q: Query) {
    Applies(r, q) && (IsName(q.kind) ==> ExpandFor(r.pattern, q) == Ok(q.name))
  }

  /** What the name becomes under a rule that matches. */
  function Replacement(r: Rule, q: Query): Outcome {
    match q.kind
    case NodeName =>
      if ValidNodeName(r.replacement) then Renamed(r.replacement) else Rejected(Error.NodeInvalidName)
    case NodeNamespace =>
      if ValidNamespace(r.replacement) then Renamed(r.replacement) else Rejected(Error.NodeInvalidNamespace)
    case _ => match ExpandFor(r.replacement, q)
      case Ok(out) => Renamed(out)
      case _ => Rejected(Failed)
  }

  /** The first rule that matches decides. */
  function FirstMatch(rules: seq<Rule>, q: Query): Outcome {
    if rules == [] then NoMatch
    else if Matches(rules[0], q) then Replacement(rules[0], q)
    else FirstMatch(rules[1..], q)
  }

  /** What makes the arguments themselves unusable. */
  function Objection(q: Query): Option<Error> {
    if !IsName(q.kind) then None
    else if !Validate(q.name).Valid? then Some(if q.kind.Topic? then Error.TopicNameInvalid else ServiceNameInvalid)
    else if !ValidNodeName(q.node) then Some(Error.NodeInvalidName)
    else if !ValidNamespace(q.ns) then Some(Error.NodeInvalidNamespace)
    else None
  }

  /** rcl_remap_topic_name, rcl_remap_service_name, rcl_remap_node_name, rcl_remap_node_namespace */
  function Remap(local: Option<seq<Rule>>, global: Option<seq<Rule>>, q: Query): Outcome {
    if local.None? && global.None? then Rejected(InvalidArgument)
    else match Objection(q)
      case Some(e) => Rejected(e)
      case None =>
        var found := if local.Some? then FirstMatch(local.value, q) else NoMatch;
        if found.NoMatch? && global.Some? then FirstMatch(global.value, q) else found
  }

  // ----- one search over local and global rules -----

  lemma {:induction false} FirstMatchConcat(a: seq<Rule>, b: seq<Rule>, q: Query)
    ensures FirstMatch(a + b, q) == if FirstMatch(a, q).NoMatch? then FirstMatch(b, q) else FirstMatch(a, q)
    decreases |a|
  {
    if a == [] {
      assert a + b == b;
    } else {
      assert (a + b)[1..] == a[1..] + b;
      FirstMatchConcat(a[1..], b, q);
      ReplacementDecides(a[0], q);
    }
  }

  lemma ReplacementDecides(r: Rule, q: Query)
    ensures !Replacement(r, q).NoMatch?
  {
  }

  function RulesOf(rules: Option<seq<Rule>>): seq<Rule> {
    if rules.Some? then rules.value else []
  }

  /** Main result: remapping is a single first-match search over the local rules followed by the
      global ones. */
  lemma RemapIsOneSearch(local: Option<seq<Rule>>, global: Option<seq<Rule>>, q: Query)
    requires (local.Some? || global.Some?) && Objection(q).None?
    ensures Remap(local, global, q) == FirstMatch(RulesOf(local) + RulesOf(global), q)
  {
    FirstMatchConcat(RulesOf(local), RulesOf(global), q);
  }

  /** Rule `i` is the first that matches. */
  ghost predicate IsFirst(rules: seq<Rule>, q: Query, i: nat) {
    i < |rules| && Matches(rules[i], q) && forall j :: 0 <= j < i ==> !Matches(rules[j], q)
  }

  lemma {:induction false} FirstDecides(rules: seq<Rule>, q: Query, i: nat)
    requires IsFirst(rules, q, i)
    ensures FirstMatch(rules, q) == Replacement(rules[i], q)
  {
    if i == 0 {
    } else {
      assert IsFirst(rules[1..], q, i - 1);
      FirstDecides(rules[1..], q, i - 1);
    }
  }

  lemma {:induction false} FirstExists(rules: seq<Rule>, q: Query)
    ensures FirstMatch(rules, q).NoMatch? <==> forall r :: r in rules ==> !Matches(r, q)
    ensures !FirstMatch(rules, q).NoMatch? ==> exists i: nat :: IsFirst(rules, q, i)
    decreases |rules|
  {
    if rules == [] {
    } else {
      ReplacementDecides(rules[0], q);
      if Matches(rules[0], q) {
        assert IsFirst(rules, q, 0);
      } else {
        FirstExists(rules[1..], q);
        if i: nat :| IsFirst(rules[1..], q, i) {
          assert IsFirst(rules, q, i + 1) by {
            forall j | 0 <= j < i + 1 ensures !Matches(rules[j], q) {
              if j > 0 {
                assert rules[j] == rules[1..][j - 1];
              }
            }
          }
        }
      }
    }
  }

  /** Main result: a name is left alone exactly if no rule matches it; and it becomes `out` exactly
      if the first rule that matches it, in the given order, turns it into `out`. */
  lemma {:induction false} RenamedIff(rules: seq<Rule>, q: Query, out: string)
    ensures FirstMatch(rules, q) == Renamed(out) <==>
            exists i: nat :: IsFirst(rules, q, i) && Replacement(rules[i], q) == Renamed(out)
    ensures FirstMatch(rules, q) == NoMatch <==> forall r :: r in rules ==> !Matches(r, q)
  {
    FirstExists(rules, q);
    if !FirstMatch(rules, q).NoMatch? {
      var i: nat :| IsFirst(rules, q, i);
      FirstDecides(rules, q, i);
    }
    if i: nat :| IsFirst(rules, q, i) && Replacement(rules[i], q) == Renamed(out) {
      FirstDecides(rules, q, i);
    }
  }

  /** Main result: rules after a match change nothing, so a name is never remapped twice: `later` may
      well match the new name. */
  lemma LaterRulesChangeNothing(rules: seq<Rule>, later: seq<Rule>, q: Query)
    ensures !FirstMatch(rules, q).NoMatch? ==> FirstMatch(rules + later, q) == FirstMatch(rules, q)
    ensures FirstMatch(rules, q).NoMatch? ==> FirstMatch(rules + later, q) == FirstMatch(later, q)
  {
    FirstMatchConcat(rules, later, q);
  }

  /** Main result: a renamed topic or service has an absolute name. */
  lemma RenamedIsAbsolute(local: Option<seq<Rule>>, global: Option<seq<Rule>>, q: Query)
    requires IsName(q.kind) && Remap(local, global, q).Renamed?
    ensures var out := Remap(local, global, q).name; out != "" && out[0] == '/'
  {
    RemapIsOneSearch(local, global, q);
    var rules := RulesOf(local) + RulesOf(global);
    RenamedIff(rules, q, Remap(local, global, q).name);
    var i: nat :| IsFirst(rules, q, i) && Replacement(rules[i], q) == Remap(local, global, q);
    ExpandedIsAbsolute(rules[i].replacement, q.node, q.ns, q.subs);
  }

  // ----- single rules -----

  /** Main result: a rule whose pattern is relative is for the name below the node's namespace, one
      with a `~` for the name below the node, an absolute one for that very name, and none for any
      other name; a `~` in the replacement stands for the node. */
  lemma PlainRule(r: Rule, rest: seq<Rule>, q: Query)
    requires (q.kind.Topic? || q.kind.Service?) && q.kind in r.kinds && (r.node.None? || r.node.value == q.node)
    requires ValidNodeName(q.node) && ValidNamespace(q.ns)
    requires Validate(r.pattern).Valid? && '{' !in r.pattern
    requires Validate(r.replacement).Valid? && '{' !in r.replacement
    ensures var below := if q.ns == "/" then "/" else q.ns + "/";
            var meant := if r.pattern[0] == '/' then r.pattern
                         else if r.pattern[0] == '~' then below + q.node + r.pattern[1..]
                         else below + r.pattern;
            var renamed := if r.replacement[0] == '/' then r.replacement
                           else if r.replacement[0] == '~' then below + q.node + r.replacement[1..]
                           else below + r.replacement;
            FirstMatch([r] + rest, q) == if q.name == meant then Renamed(renamed) else FirstMatch(rest, q)
  {
    ExpandPlain(r.pattern, q.node, q.ns, q.subs);
    ExpandPlain(r.replacement, q.node, q.ns, q.subs);
    FirstMatchConcat([r], rest, q);
    assert FirstMatch([r], q) == if Matches(r, q) then Replacement(r, q) else NoMatch;
  }

  /** With node `trudy` in `/ns`, the rule `foo:=~/bar` turns `/ns/foo` into `/ns/trudy/bar`. */
  lemma TrudyExample(r: Rule, q: Query)
    requires q.kind.Topic? && q.kind in r.kinds && r.node.None?
    requires q.node == "trudy" && q.ns == "/ns" && q.name == "/ns/foo"
    requires r.pattern == "foo" && r.replacement == "~/bar"
    ensures FirstMatch([r], q) == Renamed("/ns/trudy/bar")
  {
    ExampleIsValid(r, q);
    PlainRule(r, [], q);
    assert [r] + [] == [r];
    assert r.replacement[1..] == "/bar";
    assert ("/ns" + "/") + "foo" == "/ns/foo" && ("/ns" + "/") + "trudy" + "/bar" == "/ns/trudy/bar";
  }

  lemma ExampleIsValid(r: Rule, q: Query)
    requires q.node == "trudy" && q.ns == "/ns" && r.pattern == "foo" && r.replacement == "~/bar"
    ensures ValidNodeName(q.node) && ValidNamespace(q.ns)
    ensures Validate(r.pattern).Valid? && '{' !in r.pattern
    ensures Validate(r.replacement).Valid? && '{' !in r.replacement
  {
    var f := r.pattern;
    assert ScanChars(f, 3, None) == Valid && ScanChars(f, 1, None) == Valid;
    assert ScanTokens(f, 3) == Valid && ScanTokens(f, 1) == Valid;
    TildeExampleIsValid(r.replacement);
  }

  lemma TildeExampleIsValid(t: string)
    requires t == "~/bar"
    ensures Validate(t).Valid? && '{' !in t
  {
    assert ScanChars(t, 5, None) == Valid && ScanChars(t, 3, None) == Valid && ScanChars(t, 1, None) == Valid;
    assert ScanTokens(t, 5) == Valid && ScanTokens(t, 3) == Valid && ScanTokens(t, 1) == Valid;
  }

  /** A rule for one node does nothing for another. */
  lemma RuleOfOtherNode(before: seq<Rule>, r: Rule, after: seq<Rule>, q: Query)
    requires r.node.Some? && r.node.value != q.node
    ensures FirstMatch(before + [r] + after, q) == FirstMatch(before + after, q)
  {
    FirstMatchConcat(before + [r], after, q);
    FirstMatchConcat(before, [r], q);
    FirstMatchConcat(before, after, q);
    assert FirstMatch([r], q) == NoMatch;
  }

  /** A rule for names of other kinds does nothing. */
  lemma RuleOfOtherKind(before: seq<Rule>, r: Rule, after: seq<Rule>, q: Query)
    requires q.kind !in r.kinds
    ensures FirstMatch(before + [r] + after, q) == FirstMatch(before + after, q)
  {
    FirstMatchConcat(before + [r], after, q);
    FirstMatchConcat(before, [r], q);
    FirstMatchConcat(before, after, q);
    assert FirstMatch([r], q) == NoMatch;
  }

  /** For its own node a rule does what it does without naming a node. */
  lemma RuleOfThisNode(r: Rule, rest: seq<Rule>, q: Query)
    requires r.node == Some(q.node)
    ensures FirstMatch([r] + rest, q) == FirstMatch([r.(node := None)] + rest, q)
  {
    var s := r.(node := None);
    FirstMatchConcat([r], rest, q);
    FirstMatchConcat([s], rest, q);
    assert FirstMatch([r], q) == if Matches(r, q) then Replacement(r, q) else NoMatch;
    assert FirstMatch([s], q) == if Matches(s, q) then Replacement(s, q) else NoMatch;
  }

  /** Of several rules for node names or namespaces the first one given holds, as it stands; if what
      it gives is not valid the remapping fails. */
  lemma FirstNodeRuleHolds(r: Rule, rest: seq<Rule>, q: Query)
    requires q.kind.NodeName? || q.kind.NodeNamespace?
    requires q.kind in r.kinds && (r.node.None? || r.node.value == q.node)
    ensures q.kind.NodeName? ==>
              FirstMatch([r] + rest, q) ==
              if ValidNodeName(r.replacement) then Renamed(r.replacement) else Rejected(Error.NodeInvalidName)
    ensures q.kind.NodeNamespace? ==>
              FirstMatch([r] + rest, q) ==
              if ValidNamespace(r.replacement) then Renamed(r.replacement) else Rejected(Error.NodeInvalidNamespace)
  {
    LaterRulesChangeNothing([r], rest, q);
  }

  /** Without any arguments, or for a name that is not valid, no rule is looked at. */
  lemma RejectedFirst(local: Option<seq<Rule>>, global: Option<seq<Rule>>, q: Query)
    ensures local.None? && global.None? ==> Remap(local, global, q) == Rejected(InvalidArgument)
    ensures (local.Some? || global.Some?) && q.kind.Topic? && !Validate(q.name).Valid? ==>
              Remap(local, global, q) == Rejected(Error.TopicNameInvalid)
    ensures (local.Some? || global.Some?) && q.kind.Service? && !Validate(q.name).Valid? ==>
              Remap(local, global, q) == Rejected(ServiceNameInvalid)
  {
  }
}
